/** The host-side reader of host/host.c. The standard input is a string field that the methods
    consume from the front; the records read are collected instead of printed. */
module Host {
  import opened CString
  import opened Values

  const STR_PIN := "*\r\n"
  const STR_BEGIN := "[BENCHMARKS BEGIN]\r\n"
  const STR_END := "[BENCHMARKS END]\r\n"

  datatype Record = Record(category: string, name: string, iterations: nat)

  // ----- lines

  /** Length of the first line with its newline, or of all the input if there is none. */
  function LineLength(input: string): (k: nat)
    ensures k <= |input| && (input != "" ==> k > 0)
  {
    if input == "" then 0 else if input[0] == '\n' then 1 else 1 + LineLength(input[1..])
  }

  /** The input behind the first line equal to str; none if the input ends first. */
  function AfterLine(input: string, str: string): Option<string>
    decreases |input|
  {
    if input == "" then None
    else
      var k := LineLength(input);
      if input[..k] == str then Some(input[k..]) else AfterLine(input[k..], str)
  }

  // ----- scanf

  predicate IsSpace(c: char) {
    c == ' ' || ('\t' <= c <= '\r')
  }

  /** The white space of scanf: blank, and the codes from tab to carriage return. */
  lemma SpaceCodes(c: char)
    ensures IsSpace(c) <==> c as int == 32 || 9 <= c as int <= 13
  {}

  function SkipSpace(s: string): (r: string)
    ensures |r| <= |s|
  {
    if s != "" && IsSpace(s[0]) then SkipSpace(s[1..]) else s
  }

  function WordLength(s: string): (k: nat)
    ensures k <= |s|
  {
    if s != "" && !IsSpace(s[0]) then 1 + WordLength(s[1..]) else 0
  }

  datatype Scan = Scan(record: Option<Record>, rest: string)

  /** `%s`: the word after white space; empty at the end of the input. */
  function ScanWord(s: string): (string, string) {
    var t := SkipSpace(s);
    (t[..WordLength(t)], t[WordLength(t)..])
  }

  /** `%lld` stored into an unsigned 64-bit variable; fails without a digit after the sign. */
  function ScanNumber(s: string): (Option<nat>, string) {
    var t := SkipSpace(s);
    var u := SkipSign(t);
    if DigitRun(u) == 0 then (None, u)
    else
      var m := Accumulate(u, 0);
      (Some((if t[0] == '-' then -(m as int) else m) % 0x1_0000_0000_0000_0000), u[DigitRun(u)..])
  }

  /** `fscanf(stdin, "%s%s%lld ", ...)`: all three conversions or no record. */
  function ScanRecord(s: string): Scan {
    var (category, s1) := ScanWord(s);
    if category == "" then Scan(None, s1)
    else
      var (name, s2) := ScanWord(s1);
      if name == "" then Scan(None, s2)
      else
        var (n, s3) := ScanNumber(s2);
        if n.None? then Scan(None, s3) else Scan(Some(Record(category, name, n.value)), SkipSpace(s3))
  }

  // ----- the timed sections

  /** The input behind the first c; none if there is none, and then the reader never returns. */
  function AfterChar(s: string, c: char): Option<string> {
    if s == "" then None else if s[0] == c then Some(s[1..]) else AfterChar(s[1..], c)
  }

  /** One timed section: a character, and if it opens the section, all up to the closing one. */
  function AfterSection(s: string, open: char, close: char): Option<string> {
    if s == "" then Some("")
    else if s[0] == open then AfterChar(s[1..], close)
    else Some(s[1..])
  }

  function AfterSections(s: string): Option<string> {
    var s1 := AfterSection(s, '{', '}');
    if s1.None? then None else AfterSection(s1.value, '[', ']')
  }

  // ----- the whole program

  datatype Outcome = Done(records: seq<Record>, rest: string) | Hangs(records: seq<Record>)

  lemma ScanShrinks(s: string)
    ensures ScanRecord(s).record.Some? ==> |ScanRecord(s).rest| < |s|
  {
    var (category, s1) := ScanWord(s);
    var (name, s2) := ScanWord(s1);
    var (n, s3) := ScanNumber(s2);
  }

  lemma {:induction false} AfterCharShrinks(s: string, c: char)
    ensures AfterChar(s, c).Some? ==> |AfterChar(s, c).value| < |s|
  {
    if s != "" && s[0] != c { AfterCharShrinks(s[1..], c); }
  }

  lemma SectionsShrink(s: string)
    ensures AfterSections(s).Some? ==> |AfterSections(s).value| <= |s|
  {
    if s != "" { AfterCharShrinks(s[1..], '}'); }
    var s1 := AfterSection(s, '{', '}');
    if s1.Some? && s1.value != "" { AfterCharShrinks(s1.value[1..], ']'); }
  }

  /** The loop over the records, after those in `before`. */
  function ReadRecords(s: string, before: seq<Record>): Outcome
    decreases |s|
  {
    var scan := ScanRecord(s);
    if scan.record.None? then Done(before, scan.rest)
    else
      var all := before + [scan.record.value];
      var rest := AfterSections(scan.rest);
      if rest.None? then Hangs(all)
      else
        ScanShrinks(s);
        SectionsShrink(scan.rest);
        ReadRecords(rest.value, all)
  }

  function Rest(o: Option<string>): string {
    if o.Some? then o.value else ""
  }

  function RunHost(input: string): Outcome {
    var s1 := Rest(AfterLine(input, STR_PIN));
    var begin := AfterLine(s1, STR_BEGIN);
    var o := if begin.Some? then ReadRecords(begin.value, []) else Done([], "");
    match o
    case Hangs(rs) => Hangs(rs)
    case Done(rs, s2) => Done(rs, Rest(AfterLine(s2, STR_END)))
  }

  class Reader {
    var input: string
    var records: seq<Record>

    constructor (stdin: string)
      ensures input == stdin && records == []
    {
      input, records := stdin, [];
    }

    /** `getline`: none at the end of the input. */
    method GetLine() returns (line: Option<string>)
      modifies this`input
      ensures if old(input) == "" then line == None && input == ""
              else line == Some(old(input)[..LineLength(old(input))]) && input == old(input)[LineLength(old(input))..]
    {
      if input == "" {
        return None;
      }
      var k := 0;
      while k < |input| && input[k] != '\n'
        invariant 0 <= k <= |input| && k + LineLength(input[k..]) == LineLength(input)
      {
        assert input[k..][1..] == input[k + 1..];
        k := k + 1;
      }
      if k < |input| {
        k := k + 1;
      }
      line := Some(input[..k]);
      input := input[k..];
    }

    method ReadStart(str: string) returns (r: int)
      modifies this`input
      ensures r == if AfterLine(old(input), str).Some? then 0 else 1
      ensures input == Rest(AfterLine(old(input), str))
    {
      while true
        invariant AfterLine(input, str) == AfterLine(old(input), str)
        decreases |input|
      {
        var line := GetLine();
        if line.None? {
          return 1;
        }
        if line.value == str {
          return 0;
        }
      }
    }

    method SkipWhite()
      modifies this`input
      ensures input == SkipSpace(old(input))
    {
      while input != "" && IsSpace(input[0])
        invariant SkipSpace(input) == SkipSpace(old(input))
        decreases |input|
      {
        input := input[1..];
      }
    }

    method ReadWord() returns (w: string)
      modifies this`input
      ensures (w, input) == ScanWord(old(input))
    {
      SkipWhite();
      ghost var t := input;
      w := "";
      while input != "" && !IsSpace(input[0])
        invariant w + input == t && |w| + WordLength(input) == WordLength(t)
        decreases |input|
      {
        assert w + input == w + [input[0]] + input[1..];
        w := w + [input[0]];
        input := input[1..];
      }
      assert t[..|w|] == w && t[|w|..] == input;
    }

    method ReadBenchmark() returns (r: int)
      modifies this`input, this`records
      ensures r == if ScanRecord(old(input)).record.Some? then 0 else 1
      ensures input == ScanRecord(old(input)).rest
      ensures records == if r == 0 then old(records) + [ScanRecord(old(input)).record.value] else old(records)
    {
      var category := ReadWord();
      if category == "" {
        return 1;
      }
      var benchmark := ReadWord();
      if benchmark == "" {
        return 1;
      }
      var n, rest := ScanNumber(input).0, ScanNumber(input).1;
      input := rest;
      if n.None? {
        return 1;
      }
      SkipWhite();
      records := records + [Record(category, benchmark, n.value)];
      return 0;
    }

    /** The opening character of a timed section, or NUL. */
    method ReadTimeStartChar() returns (c: char)
      modifies this`input
      ensures old(input) == "" ==> c == NUL && input == ""
      ensures old(input) != "" ==> input == old(input)[1..]
      ensures old(input) != "" ==> c == if old(input)[0] == '[' || old(input)[0] == '{' then old(input)[0] else NUL
    {
      if input == "" {
        return NUL;
      }
      c := input[0];
      input := input[1..];
      if c != '[' && c != '{' {
        c := NUL;
      }
    }

    /** Reads up to the target; false when the input ends first and the loop never does. */
    method ReadTimeEndChar(target: char) returns (found: bool)
      modifies this`input
      ensures found == AfterChar(old(input), target).Some?
      ensures found ==> input == AfterChar(old(input), target).value
    {
      while input != ""
        invariant AfterChar(input, target) == AfterChar(old(input), target)
        decreases |input|
      {
        var c := input[0];
        input := input[1..];
        if c == target {
          return true;
        }
      }
      return false;
    }

    /** Both timed sections of one record. */
    method ReadSections() returns (found: bool)
      modifies this`input
      ensures found == AfterSections(old(input)).Some?
      ensures found ==> input == AfterSections(old(input)).value
    {
      var c := ReadTimeStartChar();
      if c == '{' {
        found := ReadTimeEndChar('}');
        if !found { return; }
      }
      c := ReadTimeStartChar();
      if c == '[' {
        found := ReadTimeEndChar(']');
        return;
      }
      return true;
    }

    /** The record loop of `main`; false when it hangs in a timed section. */
    method ReadAll() returns (ends: bool)
      requires records == []
      modifies this
      ensures ends ==> ReadRecords(old(input), []) == Done(records, input)
      ensures !ends ==> ReadRecords(old(input), []) == Hangs(records)
    {
      hide ScanRecord, AfterSections;
      while true
        invariant ReadRecords(input, records) == ReadRecords(old(input), [])
        decreases |input|
      {
        ScanShrinks(input);
        SectionsShrink(ScanRecord(input).rest);
        var stop := ReadBenchmark();
        if stop != 0 {
          return true;
        }
        var found := ReadSections();
        if !found {
          return false;
        }
      }
    }

    /** The program; false when it hangs in a timed section. */
    method Execute() returns (ends: bool)
      requires records == []
      modifies this
      ensures ends ==> RunHost(old(input)) == Done(records, input)
      ensures !ends ==> RunHost(old(input)) == Hangs(records)
    {
      hide ReadRecords, AfterLine;
      var r := ReadStart(STR_PIN);
      r := ReadStart(STR_BEGIN);
      if r == 0 {
        var done := ReadAll();
        if !done {
          return false;
        }
      }
      r := ReadStart(STR_END);
      return true;
    }
  }
}
