/** The benchmark harness of harness/harness.c as the producer of the guest's output stream,
    for the build that times on the host. */
module Harness {
  import Bits
  import opened CString
  import opened Format
  import opened FormatLaws
  import opened Printf
  import opened Values

  const BUFSZ := 2000

  const STR_BEGIN := "[BENCHMARKS BEGIN]\r\n"
  const STR_END := "[BENCHMARKS END]\r\n"

  /** A table entry; the last four fields are what its functions print. */
  datatype Benchmark = Benchmark(category: string, name: string, iterations: nat,
                                 init: string, control: string, kernel: string, cleanup: string)

  /** The call of `printf` is defined. */
  predicate Printable(fmt: string, args: seq<Arg>) {
    IsCString(fmt) && Render(fmt, 0, args).Some? && |Render(fmt, 0, args).value| < 0x8000_0000
  }

  function UpToNul(s: string): string {
    if s == "" || s[0] == NUL then "" else [s[0]] + UpToNul(s[1..])
  }

  /** What `printf` sends of a rendered text: as much as its buffer holds, up to the first NUL. */
  function Sent(text: string): string {
    UpToNul(text[..Min(|text|, BUFSZ - 1)])
  }

  /** All of the text is sent if and only if it has no NUL and fits the buffer. */
  lemma SentAllIff(text: string)
    ensures Sent(text) == text <==> IsCString(text) && |text| < 2000
  {
    var cut := text[..Min(|text|, BUFSZ - 1)];
    UpToNulIff(cut);
    UpToNulShorter(cut);
    if |text| < BUFSZ { assert cut == text; }
  }

  lemma {:induction false} UpToNulIff(s: string)
    ensures UpToNul(s) == s <==> IsCString(s)
  {
    if s != "" && s[0] != NUL {
      UpToNulIff(s[1..]);
      assert s == [s[0]] + s[1..];
      assert ([s[0]] + UpToNul(s[1..]))[1..] == UpToNul(s[1..]);
    }
  }

  lemma {:induction false} UpToNulShorter(s: string)
    ensures |UpToNul(s)| <= |s| && IsCString(UpToNul(s))
  {
    if s != "" { UpToNulShorter(s[1..]); }
  }

  // ----- what the formats of the harness render

  /** A format without directives prints itself. */
  lemma {:induction false} PlainRender(fmt: string, i: nat, args: seq<Arg>)
    requires i <= |fmt| && '%' !in fmt[i..]
    ensures Render(fmt, i, args) == Some(fmt[i..])
    decreases |fmt| - i
  {
    if i < |fmt| {
      assert fmt[i..] == [fmt[i]] + fmt[i + 1..];
      assert fmt[i] in fmt[i..];
      PlainRender(fmt, i + 1, args);
    } else {
      assert fmt[i..] == "";
    }
  }

  const NAME_FIELD := Field(Spec(false, false, -15, 0, 's'))
  const COUNT_FIELD := Field(Spec(false, false, -10, 0, 's'))

  /** What a left-aligned string field prints. */
  lemma NamePrinted(w: int, t: string, rest: seq<Arg>)
    requires IsCString(t) && |t| < 0x8000_0000
    ensures Printed(Spec(false, false, w, 0, 's'), [Text(t)] + rest) == Some(Padded(t, w, ' '))
  {
    hide Padded;
  }

  lemma NamesRender(c: string, n: string)
    requires IsCString(c) && IsCString(n) && |c| < 0x8000_0000 && |n| < 0x8000_0000
    ensures Render("%-15s%-15s", 0, [Text(c), Text(n)]) == Some(Padded(c, -15, ' ') + Padded(n, -15, ' '))
  {
    var ps, args := [NAME_FIELD, NAME_FIELD], [Text(c), Text(n)];
    WideFields();
    hide Render, Padded, PieceText, Printed;
    assert ps[1..] == [NAME_FIELD] && ps[1..][1..] == [];
    assert args == [Text(c)] + args[1..] && args[1..] == [Text(n)] + [];
    assert TextOf(ps[1..][1..]) == "";
    assert TextOf(ps[1..]) == "%-15s" + "" == "%-15s";
    assert TextOf(ps) == "%-15s" + TextOf(ps[1..]) == "%-15s%-15s";
    NamePrinted(-15, c, args[1..]);
    NamePrinted(-15, n, []);
    FormatMeaning(ps, args);
    assert Output(ps[1..][1..], args[1..][1..]) == Some("") && Padded(n, -15, ' ') + "" == Padded(n, -15, ' ');
    assert Output(ps[1..], args[1..]) == Some(Padded(n, -15, ' '));
  }

  lemma HeaderRenders(c: string, n: string, it: string)
    requires IsCString(c) && IsCString(n) && IsCString(it) && |c| < BUFSZ && |n| < BUFSZ && |it| < BUFSZ
    ensures Render("%-15s%-15s%-10s\r\n", 0, [Text(c), Text(n), Text(it)])
         == Some(Padded(c, -15, ' ') + (Padded(n, -15, ' ') + (Padded(it, -10, ' ') + "\r\n")))
  {
    var p3 := [COUNT_FIELD, Plain("\r\n")];
    var p2 := [NAME_FIELD] + p3;
    var ps := [NAME_FIELD] + p2;
    WideFields();
    hide Render, Padded, PieceText, Printed;
    PlainText("\r\n");
    assert p3[1..] == [Plain("\r\n")] && p3[1..][1..] == [];
    assert TextOf(p3[1..]) == "\r\n" + "";
    assert TextOf(p3) == "%-10s" + TextOf(p3[1..]) == "%-10s\r\n";
    assert p2[0] == NAME_FIELD && p2[1..] == p3;
    assert TextOf(p2) == "%-15s" + TextOf(p3) == "%-15s%-10s\r\n";
    assert ps[0] == NAME_FIELD && ps[1..] == p2;
    assert TextOf(ps) == "%-15s" + TextOf(p2) == "%-15s%-15s%-10s\r\n";
    NamePrinted(-15, c, [Text(n), Text(it)]);
    NamePrinted(-15, n, [Text(it)]);
    NamePrinted(-10, it, []);
    FormatMeaning(ps, [Text(c), Text(n), Text(it)]);
    HeaderOutput(c, n, it, ps, p2, p3);
  }

  lemma PlainText(t: string)
    ensures PieceText(Plain(t)) == t
  {}

  lemma HeaderOutput(c: string, n: string, it: string, ps: seq<Piece>, p2: seq<Piece>, p3: seq<Piece>)
    requires p3 == [COUNT_FIELD, Plain("\r\n")] && p2 == [NAME_FIELD] + p3 && ps == [NAME_FIELD] + p2
    requires Printed(NAME_FIELD.spec, [Text(c)] + [Text(n), Text(it)]) == Some(Padded(c, -15, ' '))
    requires Printed(NAME_FIELD.spec, [Text(n)] + [Text(it)]) == Some(Padded(n, -15, ' '))
    requires Printed(COUNT_FIELD.spec, [Text(it)] + []) == Some(Padded(it, -10, ' '))
    ensures Output(ps, [Text(c), Text(n), Text(it)])
         == Some(Padded(c, -15, ' ') + (Padded(n, -15, ' ') + (Padded(it, -10, ' ') + "\r\n")))
  {
    hide Padded, Printed;
    var a3, a2 := [Text(it)], [Text(n), Text(it)];
    assert a3 == [Text(it)] + [] && a2 == [Text(n)] + [Text(it)] && [Text(c), Text(n), Text(it)] == [Text(c)] + a2;
    assert a3[1..] == [] && a2[1..] == a3 && [Text(c), Text(n), Text(it)][1..] == a2;
    assert p3[1..] == [Plain("\r\n")] && p3[1..][1..] == [] && "\r\n" + "" == "\r\n";
    assert Output(p3[1..], []) == Append("\r\n", Output(p3[1..][1..], [])) == Some("\r\n");
    assert Output(p3, a3) == Some(Padded(it, -10, ' ') + "\r\n");
    assert p2[1..] == p3 && ps[1..] == p2;
    assert Output(p2, a2) == Some(Padded(n, -15, ' ') + (Padded(it, -10, ' ') + "\r\n"));
  }

  lemma CountRenders(n: int)
    requires AsSigned(n, true) != -LONG_LIMIT
    ensures Render("%-10ld", 0, [Num(n)]) == Some(Padded(IntText(AsSigned(n, true), 10), -10, ' '))
  {
    WideFields();
    hide Render, PieceText, Padded, IntText;
    OneField(Spec(false, false, -10, 1, 'd'), n);
  }

  // ----- the stream

  function Count(b: Benchmark): string {
    Padded(IntText(AsSigned(b.iterations, true), 10), -10, ' ')
  }

  /** What `harness_execute` and the benchmark's own functions put out. */
  function RecordText(b: Benchmark): string {
    Sent(Padded(b.category, -15, ' ') + Padded(b.name, -15, ' ')) + b.init + Count(b)
    + "{" + b.control + "}" + "[" + b.kernel + "]\r\n" + b.cleanup
  }

  function RecordTexts(bs: seq<Benchmark>): string {
    if bs == [] then "" else RecordText(bs[0]) + RecordTexts(bs[1..])
  }

  function Header(): string {
    Padded("category", -15, ' ') + (Padded("name", -15, ' ') + (Padded("iteration", -10, ' ') + "\r\n"))
  }

  /** What `harness_main` puts out. */
  function GuestStream(bs: seq<Benchmark>): string {
    "*\r\n" + Header() + STR_BEGIN + RecordTexts(bs) + STR_END + STR_END
  }

  /** The benchmark's names are C strings whose length is an `int`, and its count is not the one
      number that `print_int` cannot negate. */
  predicate Printing(b: Benchmark) {
    && IsCString(b.category) && IsCString(b.name) && |b.category| + |b.name| < 0x7fff_ff00
    && AsSigned(b.iterations, true) != -LONG_LIMIT
  }

  class Guest {
    var out: string

    constructor ()
      ensures out == ""
    {
      out := "";
    }

    method Puts(buf: array<char>, ghost text: string)
      requires |text| < buf.Length && buf[..|text|] == text && buf[|text|] == NUL
      modifies this`out
      ensures out == old(out) + UpToNul(text)
    {
      var i := 0;
      ghost var o := out;
      assert text[0..] == text;
      while buf[i] != NUL
        invariant 0 <= i <= |text| && out + UpToNul(text[i..]) == o + UpToNul(text)
        decreases |text| - i
      {
        assert buf[i] == buf[..|text|][i] == text[i];
        assert text[i..][1..] == text[i + 1..];
        Assoc(out, [buf[i]], UpToNul(text[i + 1..]));
        out := out + [buf[i]];
        i := i + 1;
      }
      if i < |text| {
        assert text[i] == buf[..|text|][i] == NUL;
      }
      assert UpToNul(text[i..]) == "";
    }

    method Printf(fmt: string, args: seq<Arg>)
      requires Printable(fmt, args)
      modifies this`out
      ensures out == old(out) + Sent(Render(fmt, 0, args).value)
    {
      hide Render, UpToNul;
      var buf := new char[BUFSZ];
      var r := VsnPrintf(buf, BUFSZ, fmt, args);
      ghost var text := Render(fmt, 0, args).value;
      ghost var cut := text[..Min(|text|, BUFSZ - 1)];
      assert buf[..][..|cut|] == cut && buf[..][|cut|] == NUL;
      Puts(buf, cut);
    }

    /** `printf` of a string without directives. */
    method Say(text: string)
      requires IsCString(text) && '%' !in text && |text| < BUFSZ
      modifies this`out
      ensures out == old(out) + text
    {
      assert text[0..] == text;
      PlainRender(text, 0, []);
      SentAllIff(text);
      hide Sent;
      Printf(text, []);
    }

    method HarnessExecute(b: Benchmark)
      requires Printing(b)
      modifies this`out
      ensures out == old(out) + RecordText(b)
    {
      hide Render, Padded, IntText, Sent;
      NamesPrintable(b);
      Printf("%-15s%-15s", [Text(b.category), Text(b.name)]);
      out := out + b.init;
      CountPrintable(b);
      Printf("%-10ld", [Num(b.iterations)]);
      Say("{");
      out := out + b.control;
      Say("}");
      Say("[");
      out := out + b.kernel;
      Say("]\r\n");
      out := out + b.cleanup;
      RecordSum(old(out), b);
    }

    method HarnessMain(table: seq<Benchmark>)
      requires forall b :: b in table ==> Printing(b)
      modifies this`out
      ensures out == old(out) + GuestStream(table)
    {
      hide Render, Padded, RecordText, Sent, Header, RecordTexts;
      Say("*\r\n");
      HeaderPrintable();
      Printf("%-15s%-15s%-10s\r\n", [Text("category"), Text("name"), Text("iteration")]);
      Say(STR_BEGIN);
      ghost var head := old(out) + ("*\r\n" + Header() + STR_BEGIN);
      assert out == head;
      var i := 0;
      assert RecordTexts(table[..0]) == "" by { NoRecords(table); }
      while i < |table|
        invariant 0 <= i <= |table| && out == head + RecordTexts(table[..i])
      {
        HarnessExecute(table[i]);
        MoreRecords(table, i);
        Assoc(head, RecordTexts(table[..i]), RecordText(table[i]));
        i := i + 1;
      }
      assert table[..|table|] == table;
      Say(STR_END);
      Say(STR_END);
      StreamSum(old(out), "*\r\n" + Header() + STR_BEGIN, RecordTexts(table));
    }
  }

  lemma {:induction false} MoreRecords(bs: seq<Benchmark>, i: nat)
    requires i < |bs|
    ensures RecordTexts(bs[..i + 1]) == RecordTexts(bs[..i]) + RecordText(bs[i])
    decreases i
  {
    hide RecordText;
    if i == 0 {
      assert bs[..1][1..] == [] && bs[..0] == [];
      assert RecordTexts(bs[..1]) == RecordText(bs[0]) + "";
    } else {
      assert bs[..i + 1][1..] == bs[1..][..i] && bs[..i][1..] == bs[1..][..i - 1];
      MoreRecords(bs[1..], i - 1);
      Assoc(RecordText(bs[0]), RecordTexts(bs[1..][..i - 1]), RecordText(bs[i]));
    }
  }

  lemma PaddedCString(s: string, npad: int)
    requires IsCString(s) && npad <= 0
    ensures IsCString(Padded(s, npad, ' ')) && |Padded(s, npad, ' ')| == Max(|s|, -npad)
  {}

  lemma NamesPrintable(b: Benchmark)
    requires Printing(b)
    ensures Printable("%-15s%-15s", [Text(b.category), Text(b.name)])
    ensures Render("%-15s%-15s", 0, [Text(b.category), Text(b.name)])
         == Some(Padded(b.category, -15, ' ') + Padded(b.name, -15, ' '))
  {
    hide Render, Padded;
    NamesRender(b.category, b.name);
    PaddedCString(b.category, -15);
    PaddedCString(b.name, -15);
  }

  lemma CountIsShort(b: Benchmark)
    requires Printing(b)
    ensures IsCString(Count(b)) && |Count(b)| < BUFSZ
  {
    var v := AsSigned(b.iterations, true);
    DigitsShort(Abs(v));
    DigitsAreDigits(Abs(v), 10);
    hide Padded, Digits;
    PaddedCString(IntText(v, 10), -10);
  }

  lemma DigitsShort(n: nat)
    requires n < 0x1_0000_0000_0000_0000
    ensures |Digits(n, 10)| <= 20
  {
    if n > 0 {
      RevDigitsAreDigits(n, 10);
      WordDigitsFit(n, 10);
    }
  }

  lemma CountPrintable(b: Benchmark)
    requires Printing(b)
    ensures Printable("%-10ld", [Num(b.iterations)])
    ensures Render("%-10ld", 0, [Num(b.iterations)]) == Some(Count(b)) && Sent(Count(b)) == Count(b)
  {
    hide Render, Padded, Sent;
    CountRenders(b.iterations);
    CountIsShort(b);
    SentAllIff(Count(b));
  }

  lemma HeaderPrintable()
    ensures Printable("%-15s%-15s%-10s\r\n", [Text("category"), Text("name"), Text("iteration")])
    ensures Render("%-15s%-15s%-10s\r\n", 0, [Text("category"), Text("name"), Text("iteration")]) == Some(Header())
    ensures Sent(Header()) == Header()
  {
    hide Render, Padded, Sent;
    HeaderRenders("category", "name", "iteration");
    PaddedCString("category", -15);
    PaddedCString("name", -15);
    PaddedCString("iteration", -10);
    SentAllIff(Header());
  }

  lemma NoRecords(bs: seq<Benchmark>)
    ensures RecordTexts(bs[..0]) == ""
  {}

  lemma StreamSum(o: string, head: string, records: string)
    ensures o + head + records + STR_END + STR_END == o + (head + records + STR_END + STR_END)
  {}

  lemma RecordSum(o: string, b: Benchmark)
    ensures o + Sent(Padded(b.category, -15, ' ') + Padded(b.name, -15, ' ')) + b.init + Count(b)
            + "{" + b.control + "}" + "[" + b.kernel + "]\r\n" + b.cleanup == o + RecordText(b)
  {
    hide Padded, Count, Sent;
  }
}
