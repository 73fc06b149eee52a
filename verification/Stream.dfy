/** The guest's output stream read by the host: what comes back is the guest's benchmark list,
    exactly when every category and name is shorter than its column. */
module Stream {
  import opened CString
  import opened Format
  import opened Host
  import H = Harness
  import P = Printf
  import opened Values

  type Benchmark = H.Benchmark

  ghost predicate AllSpace(s: string) {
    forall i :: 0 <= i < |s| ==> IsSpace(s[i])
  }

  ghost predicate IsWord(s: string) {
    s != "" && forall i :: 0 <= i < |s| ==> !IsSpace(s[i])
  }

  /** The benchmark can be told apart in the stream: words for names that `printf` does not cut
      off, white space at most from init and cleanup, no closing delimiter in the timed output,
      and a printable count. */
  ghost predicate WellBehaved(b: Benchmark) {
    && IsWord(b.category) && IsWord(b.name) && AllSpace(b.init) && AllSpace(b.cleanup)
    && IsCString(b.category) && IsCString(b.name) && Max(|b.category|, 15) + Max(|b.name|, 15) < H.BUFSZ
    && '}' !in b.control && ']' !in b.kernel
    && b.iterations < 0x1_0000_0000_0000_0000 && AsSigned(b.iterations, true) != -LONG_LIMIT
  }

  /** The category leaves a blank in its 15 columns; so does the name, unless init prints one. */
  predicate Separated(b: Benchmark) {
    |b.category| < 15 && (|b.name| < 15 || b.init != "")
  }

  function RecordOf(b: Benchmark): Record {
    Record(b.category, b.name, b.iterations)
  }

  function RecordsOf(bs: seq<Benchmark>): seq<Record> {
    seq(|bs|, i requires 0 <= i < |bs| => RecordOf(bs[i]))
  }

  // ----- scanning what was printed

  /** t does not go on with white space. */
  predicate Solid(t: string) { t == "" || !IsSpace(t[0]) }

  /** t does not go on with a word. */
  predicate Loose(t: string) { t == "" || IsSpace(t[0]) }

  lemma {:induction false} SpaceSkipped(white: string, t: string)
    requires AllSpace(white) && Solid(t)
    ensures SkipSpace(white + t) == t
  {
    if white == "" {
      assert white + t == t;
    } else {
      assert (white + t)[1..] == white[1..] + t;
      SpaceSkipped(white[1..], t);
    }
  }

  lemma {:induction false} WordMeasured(w: string, t: string)
    requires (forall i :: 0 <= i < |w| ==> !IsSpace(w[i])) && Loose(t)
    ensures WordLength(w + t) == |w|
  {
    if w == "" {
      assert w + t == t;
    } else {
      assert (w + t)[1..] == w[1..] + t;
      WordMeasured(w[1..], t);
    }
  }

  lemma WordScanned(white: string, w: string, t: string)
    requires AllSpace(white) && IsWord(w) && Loose(t)
    ensures ScanWord(white + (w + t)) == (w, t)
  {
    SpaceSkipped(white, w + t);
    WordMeasured(w, t);
    assert (w + t)[..|w|] == w && (w + t)[|w|..] == t;
  }

  lemma SignThenDigits(v: int, t: string)
    requires t == "" || !IsDigit(t[0])
    ensures var s, u := IntText(v, 10) + t, Digits(Abs(v), 10) + t;
            && s != "" && !IsSpace(s[0]) && (s[0] == '-' <==> v < 0) && SkipSign(s) == u
            && DigitRun(u) == |Digits(Abs(v), 10)| && u[DigitRun(u)..] == t
  {
    var d := Digits(Abs(v), 10);
    DecimalDigits(Abs(v));
    hide Digits, DigitRun;
    assert IntText(v, 10) + t == if v < 0 then ['-'] + (d + t) else d + t;
    DigitsRun(d, t);
  }

  /** A printed number is scanned back as the 64 bits it stood for. */
  lemma NumberScanned(white: string, v: int, t: string)
    requires AllSpace(white) && (t == "" || !IsDigit(t[0]))
    ensures ScanNumber(white + (IntText(v, 10) + t)) == (Some(v % 0x1_0000_0000_0000_0000), t)
  {
    hide Digits, Accumulate, SkipSpace, SkipBlanks, SkipSign, DigitRun, IntText;
    SignThenDigits(v, t);
    IntTextReads(v, t);
    SpaceSkipped(white, IntText(v, 10) + t);
  }

  lemma SignedBits(n: nat)
    requires n < 0x1_0000_0000_0000_0000
    ensures AsSigned(n, true) % 0x1_0000_0000_0000_0000 == n
  {
    assert AsUnsigned(n, true) == n;
  }

  lemma {:induction false} CharFound(s: string, c: char, t: string)
    requires c !in s
    ensures AfterChar(s + [c] + t, c) == Some(t)
  {
    if s == "" {
      assert (s + [c] + t)[1..] == t;
    } else {
      assert (s + [c] + t)[1..] == s[1..] + [c] + t;
      CharFound(s[1..], c, t);
    }
  }

  /** The two timed sections and what follows them. */
  function Sections(b: Benchmark, t: string): string {
    "{" + (b.control + "}" + ("[" + (b.kernel + "]" + t)))
  }

  lemma SectionsRead(b: Benchmark, t: string)
    requires '}' !in b.control && ']' !in b.kernel
    ensures AfterSections(Sections(b, t)) == Some(t)
  {
    var s2 := "[" + (b.kernel + "]" + t);
    CharFound(b.control, '}', s2);
    CharFound(b.kernel, ']', t);
    assert Sections(b, t)[1..] == b.control + "}" + s2;
    assert s2[1..] == b.kernel + "]" + t;
  }

  // ----- one record

  /** The blanks that left alignment in w columns puts behind s. */
  function Gap(s: string, w: nat): string {
    if w > |s| then Repeat(' ', w - |s|) else ""
  }

  lemma PaddedIsGap(s: string, w: int)
    requires w >= 0
    ensures Padded(s, -w, ' ') == s + Gap(s, w)
  {
    assert s + "" == s;
  }

  function Signed(b: Benchmark): int { AsSigned(b.iterations, true) }

  /** From the count on: the count, its gap and the sections. */
  function FromCount(b: Benchmark, t: string): string {
    IntText(Signed(b), 10) + (Gap(IntText(Signed(b), 10), 10) + Sections(b, "\r\n" + b.cleanup + t))
  }

  /** From the name on. */
  function FromName(b: Benchmark, t: string): string {
    b.name + (Gap(b.name, 15) + b.init + FromCount(b, t))
  }

  function FromCategory(b: Benchmark, t: string): string {
    b.category + (Gap(b.category, 15) + FromName(b, t))
  }

  /** A record in the stream, cut where the host cuts it. */
  lemma RecordCut(b: Benchmark, t: string)
    requires WellBehaved(b)
    ensures H.RecordText(b) + t == FromCategory(b, t)
  {
    H.PaddedCString(b.category, -15);
    H.PaddedCString(b.name, -15);
    H.SentAllIff(Padded(b.category, -15, ' ') + Padded(b.name, -15, ' '));
    var num := IntText(Signed(b), 10);
    PaddedIsGap(b.category, 15);
    PaddedIsGap(b.name, 15);
    PaddedIsGap(num, 10);
    hide Padded, IntText, Gap, H.Sent;
    var c, n, m := b.category + Gap(b.category, 15), b.name + Gap(b.name, 15), num + Gap(num, 10);
    assert H.RecordText(b) == c + n + b.init + m + "{" + b.control + "}" + "[" + b.kernel + "]\r\n" + b.cleanup;
    TailCut(c + n + b.init + m, b, t);
    HeadCut(b.category, Gap(b.category, 15), b.name, Gap(b.name, 15), b.init, num, Gap(num, 10),
            Sections(b, "\r\n" + b.cleanup + t));
  }

  lemma TailCut(head: string, b: Benchmark, t: string)
    ensures head + "{" + b.control + "}" + "[" + b.kernel + "]\r\n" + b.cleanup + t
         == head + Sections(b, "\r\n" + b.cleanup + t)
  {
    var z := "\r\n" + b.cleanup + t;
    var y := "[" + (b.kernel + "]" + z);
    var a := head + "{" + b.control + "}";
    assert "]\r\n" == "]" + "\r\n";
    assert a + "[" + b.kernel + "]\r\n" + b.cleanup + t == a + y;
    assert a + y == head + ("{" + (b.control + "}" + y));
  }

  lemma HeadCut(c: string, g1: string, n: string, g2: string, i: string, num: string, g3: string, z: string)
    ensures (c + g1) + (n + g2) + i + (num + g3) + z == c + (g1 + (n + (g2 + i + (num + (g3 + z)))))
  {
    assert (c + g1) + (n + g2) + i + (num + g3) + z == (c + g1) + (n + g2) + i + (num + (g3 + z));
    var y := num + (g3 + z);
    assert (c + g1) + (n + g2) + i + y == (c + g1) + (n + (g2 + i + y));
  }

  lemma GapIsSpace(s: string, w: nat)
    ensures AllSpace(Gap(s, w))
    ensures |s| < w ==> Gap(s, w) != "" && Gap(s, w)[0] == ' '
  {}

  lemma FromCountScanned(b: Benchmark, white: string, t: string)
    requires WellBehaved(b) && AllSpace(white)
    ensures var (n, s) := ScanNumber(white + FromCount(b, t));
            n == Some(b.iterations) && SkipSpace(s) == Sections(b, "\r\n" + b.cleanup + t)
  {
    var v := Signed(b);
    var num := IntText(v, 10);
    var rest := Sections(b, "\r\n" + b.cleanup + t);
    var g := Gap(num, 10);
    GapIsSpace(num, 10);
    assert rest[0] == '{';
    assert (g + rest)[0] == if g == "" then '{' else g[0];
    hide IntText, Sections, SkipSpace;
    NumberScanned(white, v, g + rest);
    SignedBits(b.iterations);
    SpaceSkipped(g, rest);
  }

  /** The host scans a record back whatever white space comes before it. */
  lemma RecordScanned(b: Benchmark, white: string, t: string)
    requires WellBehaved(b) && Separated(b) && AllSpace(white)
    ensures ScanRecord(white + FromCategory(b, t))
         == Scan(Some(RecordOf(b)), Sections(b, "\r\n" + b.cleanup + t))
  {
    var t1 := Gap(b.category, 15) + FromName(b, t);
    var g2 := Gap(b.name, 15) + b.init;
    var t2 := g2 + FromCount(b, t);
    GapIsSpace(b.category, 15);
    GapIsSpace(b.name, 15);
    assert t1[0] == ' ' && g2 != "" && AllSpace(g2) && t2[0] == g2[0];
    hide Gap, FromCount, SkipSpace, ScanWord, ScanNumber, Sections;
    WordScanned(white, b.category, t1);
    WordScanned(Gap(b.category, 15), b.name, t2);
    FromCountScanned(b, g2, t);
  }

  // ----- all records

  lemma EndScanned(white: string)
    requires AllSpace(white)
    ensures ScanRecord(white + (STR_END + STR_END)) == Scan(None, STR_END)
  {
    var s1 := " END]\r\n" + STR_END;
    var s2 := "\r\n" + STR_END;
    assert STR_END + STR_END == "[BENCHMARKS" + s1;
    assert s1 == " " + ("END]" + s2);
    WordScanned(white, "[BENCHMARKS", s1);
    WordScanned(" ", "END]", s2);
    SpaceSkipped("\r\n", STR_END);
    assert SkipSign(STR_END) == STR_END && DigitRun(STR_END) == 0;
  }

  /** What the stream holds from the first of the records bs on. */
  function FromRecords(bs: seq<Benchmark>): string {
    if bs == [] then STR_END + STR_END else FromCategory(bs[0], FromRecords(bs[1..]))
  }

  lemma {:induction false} RecordsCut(bs: seq<Benchmark>)
    requires forall b :: b in bs ==> WellBehaved(b)
    ensures H.RecordTexts(bs) + (STR_END + STR_END) == FromRecords(bs)
  {
    if bs == [] {
      assert "" + (STR_END + STR_END) == STR_END + STR_END;
    } else {
      RecordsCut(bs[1..]);
      RecordCut(bs[0], FromRecords(bs[1..]));
      hide FromCategory, H.RecordText;
      P.Assoc(H.RecordText(bs[0]), H.RecordTexts(bs[1..]), STR_END + STR_END);
    }
  }

  /** One round of the host's loop takes one record. */
  lemma RoundRead(b: Benchmark, white: string, t: string, before: seq<Record>)
    requires WellBehaved(b) && Separated(b) && AllSpace(white)
    ensures ReadRecords(white + FromCategory(b, t), before)
         == ReadRecords("\r\n" + b.cleanup + t, before + [RecordOf(b)])
  {
    hide FromCategory, ScanRecord, AfterSections, Sections;
    RecordScanned(b, white, t);
    SectionsRead(b, "\r\n" + b.cleanup + t);
  }

  lemma NoMoreRecords(white: string, before: seq<Record>)
    requires AllSpace(white)
    ensures ReadRecords(white + (STR_END + STR_END), before) == Done(before, STR_END)
  {
    hide ScanRecord;
    EndScanned(white);
  }

  lemma {:induction false} RecordsRead(bs: seq<Benchmark>, white: string, before: seq<Record>)
    requires AllSpace(white) && forall b :: b in bs ==> WellBehaved(b) && Separated(b)
    ensures ReadRecords(white + FromRecords(bs), before) == Done(before + RecordsOf(bs), STR_END)
    decreases |bs|
  {
    hide FromCategory, ReadRecords;
    if bs == [] {
      NoMoreRecords(white, before);
      assert before + RecordsOf([]) == before;
    } else {
      var b := bs[0];
      assert b in bs;
      RoundRead(b, white, FromRecords(bs[1..]), before);
      RecordsRead(bs[1..], "\r\n" + b.cleanup, before + [RecordOf(b)]);
      assert before + [RecordOf(b)] + RecordsOf(bs[1..]) == before + RecordsOf(bs);
    }
  }

  // ----- where the names run together

  lemma {:induction false} WordGoesOn(w: string, t: string)
    requires (forall i :: 0 <= i < |w| ==> !IsSpace(w[i])) && t != "" && !IsSpace(t[0])
    ensures WordLength(w + t) > |w|
  {
    if w == "" {
      assert w + t == t;
    } else {
      assert (w + t)[1..] == w[1..] + t;
      WordGoesOn(w[1..], t);
    }
  }

  /** A word that runs into the next one is not scanned as itself. */
  lemma WordRunsOn(white: string, w: string, t: string)
    requires AllSpace(white) && IsWord(w) && t != "" && !IsSpace(t[0])
    ensures ScanWord(white + (w + t)).0 != w
  {
    SpaceSkipped(white, w + t);
    WordGoesOn(w, t);
  }

  lemma CountStarts(b: Benchmark, t: string)
    ensures FromCount(b, t) != "" && !IsSpace(FromCount(b, t)[0])
  {
    var v := Signed(b);
    DigitsAreDigits(Abs(v), 10);
    hide Digits, Gap, Sections;
    assert FromCount(b, t)[0] == if v < 0 then '-' else Digits(v, 10)[0];
  }

  lemma LongScanned(b: Benchmark, white: string, t: string)
    requires WellBehaved(b) && !Separated(b) && AllSpace(white)
    ensures ScanRecord(white + FromCategory(b, t)).record != Some(RecordOf(b))
  {
    var t1 := Gap(b.category, 15) + FromName(b, t);
    var t2 := Gap(b.name, 15) + b.init + FromCount(b, t);
    CountStarts(b, t);
    if |b.category| >= 15 {
      assert t1 == FromName(b, t) && t1[0] == b.name[0];
      hide FromName, ScanWord, ScanNumber, SkipSpace;
      WordRunsOn(white, b.category, t1);
    } else {
      assert t2 == FromCount(b, t);
      GapIsSpace(b.category, 15);
      assert t1[0] == ' ';
      hide FromCount, ScanWord, ScanNumber, SkipSpace, Gap;
      WordScanned(white, b.category, t1);
      WordRunsOn(Gap(b.category, 15), b.name, t2);
    }
  }

  lemma {:induction false} RecordsStay(s: string, before: seq<Record>)
    ensures before <= ReadRecords(s, before).records
    decreases |s|
  {
    hide ScanRecord, AfterSections;
    var scan := ScanRecord(s);
    if scan.record.Some? && AfterSections(scan.rest).Some? {
      ScanShrinks(s);
      SectionsShrink(scan.rest);
      RecordsStay(AfterSections(scan.rest).value, before + [scan.record.value]);
    }
  }

  lemma LongRound(b: Benchmark, white: string, t: string, before: seq<Record>, more: seq<Record>)
    requires WellBehaved(b) && !Separated(b) && AllSpace(white)
    ensures ReadRecords(white + FromCategory(b, t), before).records != before + [RecordOf(b)] + more
  {
    hide FromCategory, ScanRecord, AfterSections;
    LongScanned(b, white, t);
    var scan := ScanRecord(white + FromCategory(b, t));
    if scan.record.Some? {
      var all := before + [scan.record.value];
      var rest := AfterSections(scan.rest);
      if rest.Some? { RecordsStay(rest.value, all); }
      assert all[|before|] != (before + [RecordOf(b)] + more)[|before|];
    }
  }

  lemma {:induction false} RecordsDiffer(bs: seq<Benchmark>, white: string, before: seq<Record>)
    requires AllSpace(white) && (forall b :: b in bs ==> WellBehaved(b)) && exists b :: b in bs && !Separated(b)
    ensures ReadRecords(white + FromRecords(bs), before).records != before + RecordsOf(bs)
    decreases |bs|
  {
    hide FromCategory, ReadRecords;
    var b := bs[0];
    assert b in bs;
    var t := FromRecords(bs[1..]);
    assert before + RecordsOf(bs) == before + [RecordOf(b)] + RecordsOf(bs[1..]);
    if Separated(b) {
      RoundRead(b, white, t, before);
      RecordsDiffer(bs[1..], "\r\n" + b.cleanup, before + [RecordOf(b)]);
    } else {
      LongRound(b, white, t, before, RecordsOf(bs[1..]));
    }
  }

  // ----- the whole stream

  lemma {:induction false} LineMeasured(s: string, t: string)
    requires '\n' !in s
    ensures LineLength(s + "\n" + t) == |s| + 1
  {
    if s == "" {
      assert (s + "\n" + t)[0] == '\n';
    } else {
      assert (s + "\n" + t)[1..] == s[1..] + "\n" + t;
      LineMeasured(s[1..], t);
    }
  }

  lemma LineTaken(line: string, str: string, t: string)
    requires '\n' !in line
    ensures AfterLine(line + "\n" + t, str) == if line + "\n" == str then Some(t) else AfterLine(t, str)
  {
    var s := line + "\n" + t;
    LineMeasured(line, t);
    assert s[..|line| + 1] == line + "\n" && s[|line| + 1..] == t;
  }

  lemma HeaderLine() returns (line: string)
    ensures H.Header() == line + "\n" && '\n' !in line && |line| > 20
  {
    var c, n, i := Padded("category", -15, ' '), Padded("name", -15, ' '), Padded("iteration", -10, ' ');
    H.PaddedCString("category", -15);
    H.PaddedCString("name", -15);
    line := c + (n + (i + "\r"));
    assert "\r\n" == "\r" + "\n";
    assert c + (n + (i + "\r\n")) == line + "\n";
  }

  /** Every line is finished. */
  predicate WholeLines(s: string) {
    s == "" || s[|s| - 1] == '\n'
  }

  lemma {:induction false} LineEnds(s: string, t: string)
    requires s != "" && WholeLines(s)
    ensures LineLength(s + t) == LineLength(s)
    ensures WholeLines(s[LineLength(s)..]) && (s + t)[LineLength(s)..] == s[LineLength(s)..] + t
  {
    assert (s + t)[0] == s[0];
    if s[0] != '\n' {
      assert (s + t)[1..] == s[1..] + t;
      LineEnds(s[1..], t);
      assert s[1..][LineLength(s[1..])..] == s[LineLength(s)..];
    }
  }

  /** Whole lines in front are searched before what follows. */
  lemma {:induction false} SearchedFirst(s: string, t: string, str: string)
    requires WholeLines(s)
    ensures AfterLine(s + t, str)
         == if AfterLine(s, str).Some? then Some(AfterLine(s, str).value + t) else AfterLine(t, str)
    ensures AfterLine(s, str).Some? ==> WholeLines(AfterLine(s, str).value)
    decreases |s|
  {
    if s == "" {
      assert s + t == t;
    } else {
      var k := LineLength(s);
      LineEnds(s, t);
      assert (s + t)[..k] == s[..k];
      SearchedFirst(s[k..], t, str);
    }
  }

  /** What the kernel prints before the harness runs: whole lines, with no begin marker behind a
      line that asks for pinning. */
  predicate Preamble(pre: string) {
    && WholeLines(pre)
    && (AfterLine(pre, STR_PIN).Some? ==> AfterLine(AfterLine(pre, STR_PIN).value, STR_BEGIN).None?)
  }

  lemma HeaderThenBegin(x: string)
    ensures AfterLine(H.Header() + STR_BEGIN + x, STR_BEGIN) == Some(x)
  {
    hide AfterLine, H.Header;
    var line := HeaderLine();
    assert STR_BEGIN == "[BENCHMARKS BEGIN]\r" + "\n";
    assert H.Header() + STR_BEGIN + x == line + "\n" + (STR_BEGIN + x);
    LineTaken(line, STR_BEGIN, STR_BEGIN + x);
    assert |line + "\n"| != |STR_BEGIN|;
    assert STR_BEGIN + x == "[BENCHMARKS BEGIN]\r" + "\n" + x;
    LineTaken("[BENCHMARKS BEGIN]\r", STR_BEGIN, x);
  }

  lemma PinTaken(t: string, str: string)
    ensures AfterLine("*\r\n" + t, str) == if str == STR_PIN then Some(t) else AfterLine(t, str)
  {
    assert "*\r\n" == "*\r" + "\n" && "*\r\n" + t == "*\r" + "\n" + t;
    LineTaken("*\r", str, t);
  }

  /** Behind such a preamble the host finds its place after the BEGIN line. */
  lemma BeginFound(pre: string, x: string)
    requires Preamble(pre)
    ensures var s := Rest(AfterLine(pre + ("*\r\n" + (H.Header() + STR_BEGIN + x)), STR_PIN));
            AfterLine(s, STR_BEGIN) == Some(x)
  {
    hide AfterLine, H.Header;
    var u := H.Header() + STR_BEGIN + x;
    HeaderThenBegin(x);
    PinTaken(u, STR_PIN);
    PinTaken(u, STR_BEGIN);
    SearchedFirst(pre, "*\r\n" + u, STR_PIN);
    if AfterLine(pre, STR_PIN).Some? {
      SearchedFirst(AfterLine(pre, STR_PIN).value, "*\r\n" + u, STR_BEGIN);
    }
  }

  lemma EndTaken()
    ensures AfterLine(STR_END, STR_END) == Some("")
  {
    assert STR_END == "[BENCHMARKS END]\r" + "\n" && STR_END == "[BENCHMARKS END]\r" + "\n" + "";
    LineTaken("[BENCHMARKS END]\r", STR_END, "");
  }

  /** The stream behind the pin line. */
  function BehindPin(bs: seq<Benchmark>): string {
    H.Header() + STR_BEGIN + (H.RecordTexts(bs) + (STR_END + STR_END))
  }

  lemma StreamParts(bs: seq<Benchmark>)
    ensures H.GuestStream(bs) == "*\r\n" + BehindPin(bs)
  {
    hide H.Header, H.RecordTexts;
  }

  lemma StreamRun(pre: string, bs: seq<Benchmark>)
    requires Preamble(pre) && forall b :: b in bs ==> WellBehaved(b)
    ensures RunHost(pre + H.GuestStream(bs)) ==
              match ReadRecords(FromRecords(bs), [])
              case Hangs(rs) => Hangs(rs)
              case Done(rs, s2) => Done(rs, Rest(AfterLine(s2, STR_END)))
  {
    hide AfterLine, ReadRecords, H.Header, FromRecords, H.RecordTexts, WellBehaved;
    StreamParts(bs);
    RecordsCut(bs);
    BeginFound(pre, H.RecordTexts(bs) + (STR_END + STR_END));
  }

  /** Behind any preamble the host recovers exactly the guest's list, in order, and reads the
      stream to its end -- stopping at the first END line and consuming the second -- if and only
      if every category and name is followed by white space. */
  lemma HostRecovers(pre: string, bs: seq<Benchmark>)
    requires Preamble(pre) && forall b :: b in bs ==> WellBehaved(b)
    ensures RunHost(pre + H.GuestStream(bs)) == Done(RecordsOf(bs), "") <==> forall b :: b in bs ==> Separated(b)
  {
    hide RunHost, ReadRecords, AfterLine, FromRecords;
    StreamRun(pre, bs);
    assert "" + FromRecords(bs) == FromRecords(bs);
    assert [] + RecordsOf(bs) == RecordsOf(bs);
    if forall b :: b in bs ==> Separated(b) {
      RecordsRead(bs, "", []);
      EndTaken();
    } else {
      RecordsDiffer(bs, "", []);
    }
  }

  // ----- a message without a line end

  lemma {:induction false} NoStarNoPin(s: string)
    requires '*' !in s
    ensures AfterLine(s, STR_PIN).None?
    decreases |s|
  {
    if s != "" {
      var k := LineLength(s);
      assert STR_PIN[0] == '*';
      assert forall c :: c in s[k..] ==> c in s;
      NoStarNoPin(s[k..]);
    }
  }

  /** A message right before the pin line makes it another line, and the only one there was. */
  lemma {:induction false} PinLineLost(pre: string, t: string)
    requires !WholeLines(pre) && '*' !in pre && '*' !in t
    ensures AfterLine(pre + ("*\r\n" + t), STR_PIN).None?
    decreases |pre|
  {
    var s := pre + ("*\r\n" + t);
    if '\n' in pre {
      var i := FirstOf(pre, '\n');
      var line, rest := pre[..i], pre[i + 1..];
      assert s == line + "\n" + (rest + ("*\r\n" + t));
      assert STR_PIN[0] == '*' && forall c :: c in line ==> c in pre;
      LineTaken(line, STR_PIN, rest + ("*\r\n" + t));
      assert rest[|rest| - 1] == pre[|pre| - 1];
      PinLineLost(rest, t);
    } else {
      assert s == pre + "*\r" + "\n" + t;
      LineTaken(pre + "*\r", STR_PIN, t);
      assert |pre + "*\r" + "\n"| > |STR_PIN|;
      NoStarNoPin(t);
    }
  }

  lemma {:induction false} FirstOf(s: string, c: char) returns (i: nat)
    requires c in s
    ensures i < |s| && s[i] == c && c !in s[..i]
  {
    if s[0] == c {
      i := 0;
    } else {
      var j := FirstOf(s[1..], c);
      i := j + 1;
      assert s[..i] == [s[0]] + s[1..][..j];
    }
  }

  lemma BehindPinStarless(bs: seq<Benchmark>)
    requires '*' !in H.RecordTexts(bs)
    ensures '*' !in BehindPin(bs)
  {
    hide H.RecordTexts, Padded;
    PaddedStarless("category", -15);
    PaddedStarless("name", -15);
    PaddedStarless("iteration", -10);
    assert '*' !in STR_BEGIN && '*' !in STR_END;
  }

  lemma PaddedStarless(s: string, npad: int)
    requires '*' !in s
    ensures '*' !in Padded(s, npad, ' ')
  {}

  /** Exactly what the messages before the harness must look like: where no star is printed but
      in the pin line, the host recovers a non-empty list if and only if they end with a line end
      (and the names are followed by white space). Otherwise it takes nothing for a record. */
  lemma MessagesMatterIff(pre: string, bs: seq<Benchmark>)
    requires '*' !in pre && '*' !in H.RecordTexts(bs) && bs != [] && forall b :: b in bs ==> WellBehaved(b)
    ensures RunHost(pre + H.GuestStream(bs)) == Done(RecordsOf(bs), "")
       <==> WholeLines(pre) && forall b :: b in bs ==> Separated(b)
    ensures !WholeLines(pre) ==> RunHost(pre + H.GuestStream(bs)) == Done([], "")
  {
    hide AfterLine, ReadRecords, H.Header, H.RecordTexts, WellBehaved, BehindPin, FromRecords;
    if WholeLines(pre) {
      NoStarNoPin(pre);
      HostRecovers(pre, bs);
    } else {
      StreamParts(bs);
      BehindPinStarless(bs);
      PinLineLost(pre, BehindPin(bs));
      NothingLeft(STR_BEGIN);
      NothingLeft(STR_END);
      assert |RecordsOf(bs)| > 0;
    }
  }

  lemma NothingLeft(str: string)
    ensures AfterLine("", str) == None
  {}

  /** `mpinit` prints such a message when it finds no table. It then decodes page 0; if that yields
      no CPU, `ncpu` stays 0, no AP is started and the next thing printed is the pin line. */
  lemma NoTableMessage(before: string, bs: seq<Benchmark>)
    requires '*' !in before && '*' !in H.RecordTexts(bs) && bs != [] && forall b :: b in bs ==> WellBehaved(b)
    ensures RunHost(before + "Expect to run on an SMP" + H.GuestStream(bs)) == Done([], "")
  {
    hide RunHost, H.GuestStream, WellBehaved, H.RecordTexts;
    var message := "Expect to run on an SMP";
    var pre := before + message;
    assert '*' !in message && message[|message| - 1] == 'P' == pre[|pre| - 1];
    MessagesMatterIff(pre, bs);
  }
}
