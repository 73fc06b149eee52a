/** The string functions of lib/string.c. A C string is a sequence of characters without the
    terminator; reading at its length yields NUL. */
module CString {
  import opened Values

  const NUL: char := '\0'

  predicate IsCString(s: string) {
    NUL !in s
  }

  function CharAt(s: string, i: nat): char {
    if i < |s| then s[i] else NUL
  }

  // ----- memory blocks

  /** The block after the n elements from src on were moved to dest. */
  function Moved<T>(v: seq<T>, dest: nat, src: nat, n: nat): (r: seq<T>)
    requires dest + n <= |v| && src + n <= |v|
    ensures |r| == |v| && r[dest..dest + n] == v[src..src + n]
    ensures r[..dest] == v[..dest] && r[dest + n..] == v[dest + n..]
  {
    v[..dest] + v[src..src + n] + v[dest + n..]
  }

  lemma MovedAt<T>(v: seq<T>, w: seq<T>, dest: nat, src: nat, n: nat)
    requires dest + n <= |v| && src + n <= |v| && |w| == |v|
    requires forall i :: 0 <= i < |v| && !(dest <= i < dest + n) ==> w[i] == v[i]
    requires forall i :: dest <= i < dest + n ==> w[i] == v[i + (src - dest)]
    ensures w == Moved(v, dest, src, n)
  {
    assert w == w[..dest] + w[dest..dest + n] + w[dest + n..];
    assert w[..dest] == v[..dest] && w[dest + n..] == v[dest + n..];
    assert w[dest..dest + n] == v[src..src + n];
  }

  /** The upward copy of `memmove`. */
  method MoveForward<T>(a: array<T>, dest: nat, src: nat, n: nat)
    requires dest + n <= a.Length && src + n <= a.Length && dest <= src
    modifies a
    ensures a[..] == Moved(old(a[..]), dest, src, n)
  {
    ghost var v := a[..];
    var left, d, s := n, dest, src;
    while left != 0
      invariant 0 <= left <= n && d == dest + (n - left) && s == src + (n - left)
      invariant forall i :: 0 <= i < a.Length && !(dest <= i < d) ==> a[i] == v[i]
      invariant forall i :: dest <= i < d ==> a[i] == v[i + (src - dest)]
    {
      left := left - 1;
      a[d] := a[s];
      d, s := d + 1, s + 1;
    }
    MovedAt(v, a[..], dest, src, n);
  }

  /** The downward copy of `memmove`. */
  method MoveBackward<T>(a: array<T>, dest: nat, src: nat, n: nat)
    requires dest + n <= a.Length && src + n <= a.Length && dest > src
    modifies a
    ensures a[..] == Moved(old(a[..]), dest, src, n)
  {
    ghost var v := a[..];
    var left, d, s := n, dest + n, src + n;
    while left != 0
      invariant 0 <= left <= n && d == dest + left && s == src + left
      invariant forall i :: 0 <= i < a.Length && !(d <= i < dest + n) ==> a[i] == v[i]
      invariant forall i :: d <= i < dest + n ==> a[i] == v[i + (src - dest)]
    {
      left := left - 1;
      d, s := d - 1, s - 1;
      a[d] := a[s];
    }
    MovedAt(v, a[..], dest, src, n);
  }

  /** `memmove` within one block: the old source arrives whole, however the ranges overlap. */
  method MemMove<T>(a: array<T>, dest: nat, src: nat, n: nat)
    requires dest + n <= a.Length && src + n <= a.Length
    modifies a
    ensures a[..] == Moved(old(a[..]), dest, src, n)
  {
    if dest <= src {
      MoveForward(a, dest, src, n);
    } else {
      MoveBackward(a, dest, src, n);
    }
  }

  /** `memcmp`: zero exactly when the blocks are equal, else the first difference. */
  method MemCmp(a: string, b: string, n: nat) returns (ret: int)
    requires n <= |a| && n <= |b|
    ensures ret == 0 <==> a[..n] == b[..n]
    ensures ret != 0 ==> exists k :: 0 <= k < n && a[..k] == b[..k] && ret == a[k] as int - b[k] as int
  {
    ret := 0;
    var i := 0;
    while i < n
      invariant i <= n && ret == 0 && a[..i] == b[..i]
    {
      ret := a[i] as int - b[i] as int;
      if ret != 0 {
        assert a[..n][i] != b[..n][i];
        return;
      }
      assert a[..i + 1] == a[..i] + [a[i]] && b[..i + 1] == b[..i] + [b[i]];
      i := i + 1;
    }
  }

  // ----- comparison and search

  /** The characters are bytes. */
  predicate IsBytes(s: string) {
    forall i :: 0 <= i < |s| ==> s[i] as int < 256
  }

  /** The value of a byte as a signed `char`. */
  function SignedCode(c: char): int {
    if c as int < 128 then c as int else c as int - 256
  }

  /** A byte and its signed value agree modulo 256, and the latter has 8 bits. */
  lemma SignedCodeMeans(c: char)
    requires c as int < 256
    ensures -128 <= SignedCode(c) < 128 && SignedCode(c) % 256 == c as int
  {}

  /** `strcmp`: zero exactly for equal strings, else the difference at the first mismatch. */
  method StrCmp(a: string, b: string) returns (d: int)
    requires IsCString(a) && IsCString(b) && IsBytes(a) && IsBytes(b)
    ensures d == 0 <==> a == b
    ensures exists k: nat :: k <= |a| && k <= |b| && a[..k] == b[..k]
                             && d == SignedCode(CharAt(a, k)) - SignedCode(CharAt(b, k))
  {
    var i := 0;
    while CharAt(a, i) == CharAt(b, i) && CharAt(a, i) != NUL
      invariant i <= |a| && i <= |b| && a[..i] == b[..i]
      decreases |a| - i
    {
      i := i + 1;
    }
    d := SignedCode(CharAt(a, i)) - SignedCode(CharAt(b, i));
    if d == 0 {
      assert a[..i] == a && b[..i] == b;
    }
  }

  /** `!strcmp`. */
  method StrEq(a: string, b: string) returns (eq: bool)
    requires IsCString(a) && IsCString(b) && IsBytes(a) && IsBytes(b)
    ensures eq <==> a == b
  {
    var d := StrCmp(a, b);
    return d == 0;
  }

  predicate OccursAt(text: string, word: string, i: nat) {
    i + |word| <= |text| && text[i..i + |word|] == word
  }

  /** `strstr`: the first occurrence, or none when there is none. */
  method StrStr(text: string, word: string) returns (r: Option<nat>)
    ensures r.Some? ==> OccursAt(text, word, r.value) && forall j: nat :: j < r.value ==> !OccursAt(text, word, j)
    ensures r.None? ==> forall j: nat :: !OccursAt(text, word, j)
  {
    if |word| == 0 {
      return Some(0);
    }
    var i, left := 0, |text|;
    while left >= |word|
      invariant i + left == |text|
      invariant forall j: nat :: j < i ==> !OccursAt(text, word, j)
      decreases left
    {
      left := left - 1;
      var c := MemCmp(text[i..], word, |word|);
      assert text[i..][..|word|] == text[i..i + |word|] && word[..|word|] == word;
      if c == 0 {
        return Some(i);
      }
      i := i + 1;
    }
    return None;
  }

  // ----- simple_glob

  predicate StarStart(pattern: string) {
    pattern != "" && pattern[0] == '*'
  }

  /** A trailing star that is not also the leading one. */
  predicate StarEnd(pattern: string) {
    var rest := if StarStart(pattern) then pattern[1..] else pattern;
    rest != "" && rest[|rest| - 1] == '*'
  }

  /** The pattern without its stars. */
  function GlobBody(pattern: string): string {
    var rest := if StarStart(pattern) then pattern[1..] else pattern;
    if StarEnd(pattern) then rest[..|rest| - 1] else rest
  }

  /** The body occurs in the text, at its start unless a star leads and at its end unless one trails. */
  ghost predicate GlobMatches(text: string, pattern: string) {
    exists i: nat :: OccursAt(text, GlobBody(pattern), i)
                     && (StarStart(pattern) || i == 0)
                     && (StarEnd(pattern) || i + |GlobBody(pattern)| == |text|)
  }

  /** Without stars a pattern matches only itself. */
  lemma GlobEqual(text: string, p: string)
    requires '*' !in p
    ensures GlobMatches(text, p) <==> text == p
  {
    BodyOf(p);
    hide GlobBody, StarStart, StarEnd;
    assert OccursAt(text, p, 0) && 0 + |p| == |text| <==> text == p;
  }

  /** With a trailing star it matches what begins with it. */
  lemma GlobPrefix(text: string, p: string)
    requires '*' !in p && p != ""
    ensures GlobMatches(text, p + "*") <==> p <= text
  {
    BodyOf(p);
    hide GlobBody, StarStart, StarEnd;
    assert OccursAt(text, p, 0) <==> p <= text;
  }

  /** With a leading star, what ends with it. */
  lemma GlobSuffix(text: string, p: string)
    requires '*' !in p
    ensures GlobMatches(text, "*" + p) <==> |p| <= |text| && text[|text| - |p|..] == p
  {
    BodyOf(p);
    hide GlobBody, StarStart, StarEnd;
    if |p| <= |text| {
      assert text[|text| - |p|..|text|] == text[|text| - |p|..];
      assert OccursAt(text, p, |text| - |p|) <==> text[|text| - |p|..] == p;
    }
  }

  /** With both, what it occurs in. */
  lemma GlobInside(text: string, p: string)
    requires '*' !in p
    ensures GlobMatches(text, "*" + p + "*") <==> exists i: nat :: OccursAt(text, p, i)
  {
    BodyOf(p);
    hide GlobBody, StarStart, StarEnd;
  }

  lemma BodyOf(p: string)
    requires '*' !in p
    ensures !StarStart(p) && !StarEnd(p) && GlobBody(p) == p
    ensures p != "" ==> !StarStart(p + "*") && StarEnd(p + "*") && GlobBody(p + "*") == p
    ensures StarStart("*" + p) && !StarEnd("*" + p) && GlobBody("*" + p) == p
    ensures StarStart("*" + p + "*") && StarEnd("*" + p + "*") && GlobBody("*" + p + "*") == p
  {
    assert p != "" ==> p[0] in p && p[|p| - 1] in p;
    assert p != "" ==> (p + "*")[0] == p[0];
    assert (p + "*")[..|p|] == p && ("*" + p)[1..] == p && ("*" + p + "*")[1..] == p + "*";
  }

  /** A single star, or two, match everything, and the empty pattern only the empty text. */
  lemma StarsMatchAll(text: string)
    ensures GlobMatches(text, "*") && GlobMatches(text, "**") && (GlobMatches(text, "") <==> text == "")
  {
    GlobEqual(text, "");
    GlobSuffix(text, "");
    GlobInside(text, "");
    assert "*" + "" == "*" && "*" + "" + "*" == "**";
    assert OccursAt(text, "", 0);
  }

  method SimpleGlob(text: string, pattern0: string) returns (ok: bool)
    requires IsCString(text) && IsCString(pattern0) && IsBytes(text) && IsBytes(pattern0)
    ensures ok <==> GlobMatches(text, pattern0)
  {
    var starStart, starEnd, n, pattern := false, false, |pattern0|, pattern0;
    if CharAt(pattern, 0) == '*' {
      pattern := pattern[1..];
      n := n - 1;
      starStart := true;
    }
    var copy := pattern;
    if n > 0 && pattern[n - 1] == '*' {
      n := n - 1;
      copy := copy[..n];
      starEnd := true;
    }
    assert starStart == StarStart(pattern0) && starEnd == StarEnd(pattern0) && copy == GlobBody(pattern0);
    if starStart && starEnd {
      var r := StrStr(text, copy);
      assert r.Some? ==> OccursAt(text, copy, r.value);
      return r.Some?;
    }
    if starEnd {
      var r := StrStr(text, copy);
      return r == Some(0);
    }
    if starStart {
      if n > |text| {
        return false;
      }
      var at := |text| - n;
      ok := StrEq(text[at..], copy);
      assert text[at..at + |copy|] == text[at..];
      assert OccursAt(text, copy, at) <==> text[at..] == copy;
      return;
    }
    ok := StrEq(text, copy);
    assert OccursAt(text, copy, 0) && 0 + |copy| == |text| <==> text == copy;
  }

  // ----- atol

  const LONG_LIMIT := 0x8000_0000_0000_0000
  type Long = x: int | -LONG_LIMIT <= x < LONG_LIMIT

  predicate IsDigit(c: char) {
    '0' <= c <= '9'
  }

  /** How many digits stand at the front of s. */
  function DigitRun(s: string): (k: nat)
    ensures k <= |s|
  {
    if s != "" && IsDigit(s[0]) then 1 + DigitRun(s[1..]) else 0
  }

  lemma {:induction false} DigitsRun(s: string, rest: string)
    requires (forall i :: 0 <= i < |s| ==> IsDigit(s[i])) && (rest == "" || !IsDigit(rest[0]))
    ensures DigitRun(s + rest) == |s|
  {
    if s != "" {
      assert (s + rest)[1..] == s[1..] + rest;
      DigitsRun(s[1..], rest);
    } else {
      assert s + rest == rest;
    }
  }

  function DigitValue(c: char): nat
    requires IsDigit(c)
  {
    c as int - '0' as int
  }

  /** The value of acc followed by the leading digits of s. */
  function Accumulate(s: string, acc: nat): (r: nat)
    ensures r >= acc
  {
    if s == "" || !IsDigit(s[0]) then acc else Accumulate(s[1..], acc * 10 + DigitValue(s[0]))
  }

  function SkipBlanks(s: string): string {
    if s != "" && (s[0] == ' ' || s[0] == '\t') then SkipBlanks(s[1..]) else s
  }

  function SkipSign(s: string): string {
    if s != "" && (s[0] == '-' || s[0] == '+') then s[1..] else s
  }

  /** The magnitude and the value of the number at the start of s, after blanks. */
  function Magnitude(s: string): nat {
    Accumulate(SkipSign(SkipBlanks(s)), 0)
  }

  function Number(s: string): int {
    var t, m: int := SkipBlanks(s), Magnitude(s);
    if t != "" && t[0] == '-' then -m else m
  }

  lemma AccumulateAt(s: string, i: nat, acc: nat)
    requires i <= |s|
    ensures Accumulate(s[i..], acc) ==
            if i < |s| && IsDigit(s[i]) then Accumulate(s[i + 1..], acc * 10 + DigitValue(s[i])) else acc
  {
    if i < |s| { assert s[i..][1..] == s[i + 1..]; }
  }

  /** The digit loop of `atol`: no partial result exceeds the final one. */
  method ReadDigits(s: string, start: nat) returns (acc: Long)
    requires start <= |s| && IsCString(s) && Accumulate(s[start..], 0) < LONG_LIMIT
    ensures acc == Accumulate(s[start..], 0)
  {
    hide Accumulate;
    ghost var total := Accumulate(s[start..], 0);
    var i := start;
    acc := 0;
    while CharAt(s, i) != NUL
      invariant i <= |s| && acc >= 0 && Accumulate(s[i..], acc) == total
      decreases |s| - i
    {
      AccumulateAt(s, i, acc);
      if CharAt(s, i) < '0' || CharAt(s, i) > '9' {
        return;
      }
      var c := CharAt(s, i) as int - '0' as int;
      acc := acc * 10 + c;
      i := i + 1;
    }
    AccumulateAt(s, i, acc);
  }

  /** `atol`: a number that fits a `long` is read without overflow. */
  method Atol(s: string) returns (r: Long)
    requires IsCString(s) && Magnitude(s) < LONG_LIMIT
    ensures r == Number(s)
  {
    var i := 0;
    while CharAt(s, i) == ' ' || CharAt(s, i) == '\t'
      invariant i <= |s| && SkipBlanks(s[i..]) == SkipBlanks(s)
      decreases |s| - i
    {
      i := i + 1;
    }
    var neg := false;
    if CharAt(s, i) == '-' {
      neg := true;
      i := i + 1;
    } else {
      if CharAt(s, i) == '+' {
        i := i + 1;
      }
    }
    assert s[i..] == SkipSign(SkipBlanks(s));
    var acc := ReadDigits(s, i);
    r := if neg then -acc else acc;
  }
}
