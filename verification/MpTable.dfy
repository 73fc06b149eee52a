/** Finding and decoding the MP configuration table (sections 4.1 to 4.3 of the Intel
    MultiProcessor Specification 1.4), as mp.c does it. Memory is read only, so it is a function
    from addresses to bytes; at and past 2^64 it gives what the wrapped address holds. */
module MpTable {
  import opened Bits
  import opened Values

  type Memory = nat -> Byte

  const WORD := 0x1_0000_0000_0000_0000
  const ROM := 0xf0000
  const ROM_SIZE := 0x10000

  // ----- checksums

  function SumOf(mem: Memory, a: nat, len: nat): nat {
    if len == 0 then 0 else SumOf(mem, a, len - 1) + mem(a + len - 1)
  }

  method Sum(mem: Memory, a: nat, len: nat) returns (s: Byte)
    ensures s == SumOf(mem, a, len) % 256
  {
    var sum, i := 0, 0;
    while i < len
      invariant 0 <= i <= len && sum == SumOf(mem, a, i)
    {
      sum := sum + mem(a + i);
      i := i + 1;
    }
    s := sum % 256;
  }

  /** The four bytes at a are the signature. */
  predicate HasSignature(mem: Memory, a: nat, s: string)
    requires |s| == 4
  {
    forall i: nat :: i < 4 ==> mem(a + i) == s[i] as int
  }

  method Signed(mem: Memory, a: nat, s: string) returns (ok: bool)
    requires |s| == 4
    ensures ok == HasSignature(mem, a, s)
  {
    var i := 0;
    while i < 4
      invariant 0 <= i <= 4 && forall j: nat :: j < i ==> mem(a + j) == s[j] as int
    {
      if mem(a + i) != s[i] as int {
        return false;
      }
      i := i + 1;
    }
    return true;
  }

  // ----- the floating pointer structure

  predicate IsPointer(mem: Memory, a: nat) {
    HasSignature(mem, a, "_MP_") && SumOf(mem, a, 16) % 256 == 0
  }

  /** The k-th 16-byte step from a on, if it starts before e. */
  predicate HitAt(mem: Memory, a: nat, e: nat, k: nat) {
    a + 16 * k < e && IsPointer(mem, a + 16 * k)
  }

  ghost predicate FirstHit(mem: Memory, a: nat, e: nat, r: Option<nat>) {
    if r.None? then forall k: nat :: !HitAt(mem, a, e, k)
    else exists k: nat :: LowestAt(mem, a, e, k) && r.value == a + 16 * k
  }

  ghost predicate LowestAt(mem: Memory, a: nat, e: nat, k: nat) {
    HitAt(mem, a, e, k) && forall j: nat :: j < k ==> !HitAt(mem, a, e, j)
  }

  /** The search as a recursive scan; SearchIsLowest says what it finds. */
  function Search(mem: Memory, a: nat, e: nat): Option<nat>
    decreases e - a
  {
    if a >= e then None else if IsPointer(mem, a) then Some(a) else Search(mem, a + 16, e)
  }

  lemma {:induction false} SearchIsLowest(mem: Memory, a: nat, e: nat)
    ensures FirstHit(mem, a, e, Search(mem, a, e))
    decreases e - a
  {
    hide IsPointer;
    if a < e {
      if IsPointer(mem, a) {
        assert LowestAt(mem, a, e, 0);
      } else {
        SearchIsLowest(mem, a + 16, e);
        forall k: nat | k > 0 ensures HitAt(mem, a, e, k) == HitAt(mem, a + 16, e, k - 1) {
          assert a + 16 * k == a + 16 + 16 * (k - 1);
        }
        if Search(mem, a, e).Some? {
          var k: nat :| LowestAt(mem, a + 16, e, k) && Search(mem, a, e).value == a + 16 + 16 * k;
          assert LowestAt(mem, a, e, k + 1);
        }
      }
    }
  }

  /** At most one result is the first hit. */
  lemma FirstHitUnique(mem: Memory, a: nat, e: nat, r: Option<nat>, q: Option<nat>)
    requires FirstHit(mem, a, e, r) && FirstHit(mem, a, e, q)
    ensures r == q
  {
    hide HitAt;
    if r.Some? && q.Some? {
      var j: nat :| LowestAt(mem, a, e, j) && r.value == a + 16 * j;
      var k: nat :| LowestAt(mem, a, e, k) && q.value == a + 16 * k;
      assert j <= k && k <= j;
    }
  }

  // ----- `mpsearch1` in 64-bit arithmetic

  /** What a search comes to: a hit, the end of the range, or no end at all. */
  datatype Outcome = Hit(at: nat) | Miss | Never

  /** Where the search stands after k steps; the addresses wrap. */
  function StepAt(a: nat, k: nat): nat {
    (a + 16 * k) % WORD
  }

  /** The first k steps lie before e and hold no floating pointer. */
  ghost predicate Passed(mem: Memory, a: nat, e: nat, k: nat) {
    forall j: nat :: j < k ==> StepAt(a, j) < e && !IsPointer(mem, StepAt(a, j))
  }

  ghost predicate Searched(mem: Memory, a: nat, e: nat, r: Outcome) {
    match r
    case Hit(p) => exists k: nat :: Passed(mem, a, e, k) && p == StepAt(a, k) < e && IsPointer(mem, p)
    case Miss => exists k: nat :: Passed(mem, a, e, k) && StepAt(a, k) >= e
    case Never => forall k: nat :: Passed(mem, a, e, k)
  }

  lemma NextStep(a: nat, k: nat)
    ensures (StepAt(a, k) + 16) % WORD == StepAt(a, k + 1)
  {
    var x := a + 16 * k;
    DivModUnique(x + 16, WORD, x / WORD + (x % WORD + 16) / WORD, (x % WORD + 16) % WORD);
  }

  /** After n steps the search is where it began, so it goes round for ever. */
  lemma Cycles(a: nat, n: nat, k: nat)
    requires a < WORD && n > 0 && StepAt(a, n) == a
    ensures StepAt(a, k) == StepAt(a, k % n)
  {
    var q := (a + 16 * n) / WORD;
    assert 16 * n == q * WORD;
    var x := a + 16 * (k % n);
    assert a + 16 * k == x + (k / n) * q * WORD by {
      assert k == k / n * n + k % n;
      assert 16 * (k / n * n) == (k / n) * (16 * n) == (k / n) * (q * WORD) == (k / n) * q * WORD;
    }
    assert a + 16 * k == ((k / n) * q + x / WORD) * WORD + x % WORD;
    DivModUnique(a + 16 * k, WORD, (k / n) * q + x / WORD, x % WORD);
  }

  lemma BackAtStart(mem: Memory, a: nat, e: nat, n: nat)
    requires a < WORD && n > 0 && StepAt(a, n) == a && Passed(mem, a, e, n)
    ensures Searched(mem, a, e, Never)
  {
    forall k: nat ensures StepAt(a, k) < e && !IsPointer(mem, StepAt(a, k)) {
      hide StepAt, IsPointer;
      Cycles(a, n, k);
    }
  }

  /** `mpsearch1`, for every start and length. */
  method MpSearch1(mem: Memory, a: nat, len: nat) returns (r: Outcome)
    requires a < WORD
    ensures Searched(mem, a, (a + len) % WORD, r)
  {
    hide IsPointer, StepAt;
    var e, p := (a + len) % WORD, a;
    ghost var k := 0;
    assert StepAt(a, 0) == a by { StepAtStart(a); }
    while p < e
      invariant 0 <= k < WORD / 16 && p == StepAt(a, k) && Passed(mem, a, e, k)
      decreases WORD / 16 - k
    {
      var found := IsFloating(mem, p);
      if found {
        return Hit(p);
      }
      p := (p + 16) % WORD;
      NextStep(a, k);
      k := k + 1;
      if p == a {
        BackAtStart(mem, a, e, k);
        return Never;
      }
      assert k < WORD / 16 by { FullRound(a, k); }
    }
    return Miss;
  }

  method IsFloating(mem: Memory, p: nat) returns (found: bool)
    ensures found == IsPointer(mem, p)
  {
    hide HasSignature, SumOf;
    var signed := Signed(mem, p, "_MP_");
    var s := Sum(mem, p, 16);
    return signed && s == 0;
  }

  lemma StepAtStart(a: nat)
    requires a < WORD
    ensures StepAt(a, 0) == a
  {}

  lemma FullRound(a: nat, k: nat)
    requires a < WORD && StepAt(a, k) != a && k <= WORD / 16
    ensures k < WORD / 16
  {
    if k == WORD / 16 { DivModUnique(a + 16 * k, WORD, 1, a); }
  }

  lemma StepInRange(a: nat, k: nat)
    requires a + 16 * k < WORD
    ensures StepAt(a, k) == a + 16 * k
  {}

  /** Over a length that is a multiple of 16 the search ends, with the lowest hit of the range or
      none exactly when there is none. */
  lemma SearchedIsFirst(mem: Memory, a: nat, len: nat, r: Outcome)
    requires a < WORD && len < WORD && len % 16 == 0 && Searched(mem, a, (a + len) % WORD, r)
    ensures r != Never && FirstHit(mem, a, (a + len) % WORD, if r.Hit? then Some(r.at) else None)
  {
    var e := (a + len) % WORD;
    if a + len >= WORD {
      DivModUnique(a + len, WORD, 1, a + len - WORD);
      StepAtStart(a);
      hide IsPointer, StepAt;
      StopsBefore(mem, a, e, 0, r);
    } else {
      StepInRange(a, len / 16);
      hide IsPointer, StepAt;
      StopsBefore(mem, a, e, len / 16, r);
    }
  }

  /** A search that reaches its end e after n steps without wrapping stops there at the latest. */
  lemma StopsBefore(mem: Memory, a: nat, e: nat, n: nat, r: Outcome)
    requires a + 16 * n < WORD && e <= a + 16 * n && StepAt(a, n) >= e && Searched(mem, a, e, r)
    requires n > 0 ==> e == a + 16 * n
    ensures r != Never && FirstHit(mem, a, e, if r.Hit? then Some(r.at) else None)
  {
    hide IsPointer, StepAt;
    forall j: nat | j <= n ensures StepAt(a, j) == a + 16 * j { StepInRange(a, j); }
    assert !Passed(mem, a, e, n + 1);
    if r.Hit? {
      var k: nat :| Passed(mem, a, e, k) && r.at == StepAt(a, k) < e && IsPointer(mem, r.at);
      assert k <= n;
      forall j: nat | j < k ensures !HitAt(mem, a, e, j) { assert !IsPointer(mem, StepAt(a, j)); }
      assert LowestAt(mem, a, e, k);
    } else if r.Miss? {
      var k: nat :| Passed(mem, a, e, k) && StepAt(a, k) >= e;
      assert k <= n;
      forall j: nat ensures !HitAt(mem, a, e, j) {
        if j < k { assert !IsPointer(mem, StepAt(a, j)); }
      }
    }
  }

  /** The search goes on for ever if and only if the range ends past the last 16-byte step of the
      address space and no step at all is a floating pointer. */
  lemma NeverEndsIff(mem: Memory, a: nat, e: nat)
    requires a < WORD
    ensures Searched(mem, a, e, Never)
       <==> (WORD - 16 + a % 16 < e && forall k: nat :: !IsPointer(mem, StepAt(a, k)))
  {
    hide IsPointer;
    if Searched(mem, a, e, Never) {
      var k := (WORD - 16) / 16 - a / 16;
      assert a + 16 * k == WORD - 16 + a % 16;
      StepInRange(a, k);
      assert Passed(mem, a, e, k + 1);
      forall j: nat ensures !IsPointer(mem, StepAt(a, j)) { assert Passed(mem, a, e, j + 1); }
    }
    if WORD - 16 + a % 16 < e {
      forall k: nat ensures StepAt(a, k) < e { StepBound(a, k); }
    }
  }

  lemma StepBound(a: nat, k: nat)
    ensures StepAt(a, k) <= WORD - 16 + a % 16
  {
    var x := a + 16 * k;
    var q := x / WORD;
    DivModUnique(x - q * WORD, 16, a / 16 + k - q * (WORD / 16), a % 16);
  }

  /** The kilobyte that is searched first: the start of the EBDA if the BIOS names one, else the
      end of base memory. */
  function FirstArea(mem: Memory): nat {
    var ebda := (mem(0x40f) * 256 + mem(0x40e)) * 16;
    if ebda != 0 then ebda else ((mem(0x414) * 256 + mem(0x413)) * 1024 + (WORD - 1024)) % WORD
  }

  function Locate(mem: Memory): Option<nat> {
    var first := Search(mem, FirstArea(mem), (FirstArea(mem) + 1024) % WORD);
    if first.Some? then first else Search(mem, ROM, ROM + ROM_SIZE)
  }

  /** `mpsearch`: the first hit in the EBDA-else-base-memory, then ROM order. */
  method MpSearch(mem: Memory) returns (r: Option<nat>)
    ensures r == Locate(mem)
    ensures var ebda := 16 * (mem(0x40e) + 256 * mem(0x40f));
            var top := 1024 * (mem(0x413) + 256 * mem(0x414));
            var a := if ebda != 0 then ebda else if top != 0 then top - 1024 else 0xffff_ffff_ffff_fc00;
            || (r.Some? && FirstHit(mem, a, (a + 1024) % 0x1_0000_0000_0000_0000, r))
            || (FirstHit(mem, a, (a + 1024) % 0x1_0000_0000_0000_0000, None) && FirstHit(mem, 0xf0000, 0x100000, r))
  {
    hide Search, FirstHit, Searched;
    var p := (mem(0x40f) * 256 + mem(0x40e)) * 16;
    if p != 0 {
      var o := MpSearch1(mem, p, 1024);
      Finds(mem, p, 1024, o);
      if o.Hit? {
        return Some(o.at);
      }
    } else {
      p := (mem(0x414) * 256 + mem(0x413)) * 1024;
      var o := MpSearch1(mem, (p + (WORD - 1024)) % WORD, 1024);
      Finds(mem, (p + (WORD - 1024)) % WORD, 1024, o);
      if o.Hit? {
        return Some(o.at);
      }
    }
    var o := MpSearch1(mem, ROM, ROM_SIZE);
    Finds(mem, ROM, ROM_SIZE, o);
    return if o.Hit? then Some(o.at) else None;
  }

  /** What makes a floating structure: the bytes of _MP_ and sixteen bytes that sum to 0. */
  lemma FloatingBytes(mem: Memory, a: nat)
    ensures IsPointer(mem, a)
       <==> (&& mem(a) == 0x5f && mem(a + 1) == 0x4d && mem(a + 2) == 0x50 && mem(a + 3) == 0x5f
             && SumOf(mem, a, 16) % 256 == 0)
  {
    hide SumOf;
    SignatureBytes(mem, a, "_MP_");
  }

  lemma SignatureBytes(mem: Memory, a: nat, s: string)
    requires |s| == 4
    ensures HasSignature(mem, a, s)
       <==> (&& mem(a) == s[0] as int && mem(a + 1) == s[1] as int
             && mem(a + 2) == s[2] as int && mem(a + 3) == s[3] as int)
  {
    if HasSignature(mem, a, s) {
      assert mem(a + 0) == s[0] as int;
    }
  }

  lemma Finds(mem: Memory, a: nat, len: nat, o: Outcome)
    requires a < WORD && len < WORD && len % 16 == 0 && Searched(mem, a, (a + len) % WORD, o)
    ensures var r := if o.Hit? then Some(o.at) else None;
            FirstHit(mem, a, (a + len) % WORD, r) && r == Search(mem, a, (a + len) % WORD)
  {
    hide FirstHit, Searched, Search;
    var e := (a + len) % WORD;
    SearchedIsFirst(mem, a, len, o);
    SearchIsLowest(mem, a, e);
    FirstHitUnique(mem, a, e, if o.Hit? then Some(o.at) else None, Search(mem, a, e));
  }

  // ----- the configuration table

  function Word16(mem: Memory, a: nat): nat { mem(a) + 256 * mem(a + 1) }
  function Word32(mem: Memory, a: nat): nat { Word16(mem, a) + 0x1_0000 * Word16(mem, a + 2) }

  function TableLength(mem: Memory, conf: nat): nat { Word16(mem, conf + 4) }

  predicate IsTable(mem: Memory, conf: nat) {
    && HasSignature(mem, conf, "PCMP") && (mem(conf + 6) == 1 || mem(conf + 6) == 4)
    && SumOf(mem, conf, TableLength(mem, conf)) % 256 == 0
  }

  /** The table whose address the floating structure gives, if it is acceptable. */
  function Configuration(mem: Memory): Option<nat> {
    var mp := Locate(mem);
    if mp.Some? && Word32(mem, mp.value + 4) != 0 && IsTable(mem, Word32(mem, mp.value + 4))
    then Some(Word32(mem, mp.value + 4)) else None
  }

  /** The little-endian number at a. */
  lemma Word32Bytes(mem: Memory, a: nat)
    ensures Word32(mem, a) == mem(a) + 0x100 * mem(a + 1) + 0x1_0000 * mem(a + 2) + 0x100_0000 * mem(a + 3)
  {
    assert a + 2 + 1 == a + 3;
  }

  /** A table is accepted if and only if it begins with PCMP, has version 1 or 4, and its bytes, as
      many as its length says, sum to 0. */
  lemma TableAccepted(mem: Memory, c: nat)
    ensures IsTable(mem, c)
       <==> (&& mem(c) == 0x50 && mem(c + 1) == 0x43 && mem(c + 2) == 0x4d && mem(c + 3) == 0x50
             && (mem(c + 6) == 1 || mem(c + 6) == 4)
             && SumOf(mem, c, mem(c + 4) + 256 * mem(c + 5)) % 256 == 0)
  {
    hide SumOf;
    SignatureBytes(mem, c, "PCMP");
    assert c + 4 + 1 == c + 5;
  }

  method MpConfig(mem: Memory) returns (conf: Option<nat>)
    ensures conf == Configuration(mem)
    ensures conf.Some? <==>
              && Locate(mem).Some?
              && var a := Locate(mem).value + 4;
                 var c := mem(a) + 0x100 * mem(a + 1) + 0x1_0000 * mem(a + 2) + 0x100_0000 * mem(a + 3);
                 c != 0 && IsTable(mem, c)
    ensures conf.Some? ==>
              var a := Locate(mem).value + 4;
              conf.value == mem(a) + 0x100 * mem(a + 1) + 0x1_0000 * mem(a + 2) + 0x100_0000 * mem(a + 3)
  {
    hide Locate, HasSignature, SumOf, Word16, Word32;
    var mp := MpSearch(mem);
    if mp.Some? { Word32Bytes(mem, mp.value + 4); }
    if mp.None? || Word32(mem, mp.value + 4) == 0 {
      return None;
    }
    var c := Word32(mem, mp.value + 4);
    var signed := Signed(mem, c, "PCMP");
    if !signed {
      return None;
    }
    if mem(c + 6) != 1 && mem(c + 6) != 4 {
      return None;
    }
    var s := Sum(mem, c, TableLength(mem, c));
    if s != 0 {
      return None;
    }
    return Some(c);
  }

  // ----- the entries

  /** What the loop of `mpinit` leaves: the CPU table, the I/O APIC id and where it stopped; or
      it never ends, because an unknown entry type does not advance it. */
  datatype Decoded = Finished(cpus: seq<Byte>, ioapic: Byte, stop: nat) | Spins

  function AddCpu(cpus: seq<Byte>, id: Byte): seq<Byte> {
    if |cpus| < NCPU then cpus + [id] else cpus
  }

  function EntrySize(kind: Byte): nat { if kind == 0 then 20 else 8 }

  function Decode(mem: Memory, p: nat, e: nat, cpus: seq<Byte>, ioapic: Byte): Decoded
    decreases e - p
  {
    if p >= e then Finished(cpus, ioapic, p)
    else if mem(p) == 0 then Decode(mem, p + 20, e, AddCpu(cpus, mem(p + 1)), ioapic)
    else if mem(p) == 2 then Decode(mem, p + 8, e, cpus, mem(p + 1))
    else if mem(p) == 1 || mem(p) == 3 || mem(p) == 4 then Decode(mem, p + 8, e, cpus, ioapic)
    else Spins
  }

  // ----- tables as lists of entries

  datatype Entry = Entry(kind: Byte, body: seq<Byte>)

  predicate ValidEntry(x: Entry) {
    x.kind <= 4 && |x.body| == if x.kind == 0 then 19 else 7
  }

  ghost predicate ValidEntries(xs: seq<Entry>) {
    forall i :: 0 <= i < |xs| ==> ValidEntry(xs[i])
  }

  function EntryBytes(x: Entry): seq<Byte> { [x.kind] + x.body }

  function TableBytes(xs: seq<Entry>): seq<Byte> {
    if xs == [] then [] else EntryBytes(xs[0]) + TableBytes(xs[1..])
  }

  /** The bytes stand in memory from a on. */
  ghost predicate Holds(mem: Memory, a: nat, bytes: seq<Byte>) {
    forall i: nat :: i < |bytes| ==> mem(a + i) == bytes[i]
  }

  /** The APIC ids of the processor entries, in order. */
  function ProcessorIds(xs: seq<Entry>): seq<Byte>
    requires ValidEntries(xs)
  {
    if xs == [] then []
    else (assert ValidEntry(xs[0]); if xs[0].kind == 0 then [xs[0].body[0]] else []) + ProcessorIds(xs[1..])
  }

  /** The id of the last I/O APIC entry, or `before` when there is none. */
  function LastIoApic(xs: seq<Entry>, before: Byte): Byte
    requires ValidEntries(xs)
  {
    if xs == [] then before
    else
      assert ValidEntry(xs[0]);
      LastIoApic(xs[1..], if xs[0].kind == 2 then xs[0].body[0] else before)
  }

  function Capped(s: seq<Byte>): seq<Byte> {
    if |s| <= NCPU then s else s[..NCPU]
  }

  lemma CappedAdd(cpus: seq<Byte>, id: Byte, more: seq<Byte>)
    requires |cpus| <= NCPU
    ensures Capped(AddCpu(cpus, id) + more) == Capped(cpus + ([id] + more))
  {}

  lemma HoldsSplit(mem: Memory, a: nat, x: seq<Byte>, y: seq<Byte>)
    ensures Holds(mem, a, x + y) <==> Holds(mem, a, x) && Holds(mem, a + |x|, y)
  {
    if Holds(mem, a, x + y) {
      forall i: nat | i < |x| ensures mem(a + i) == x[i] { assert (x + y)[i] == x[i]; }
      forall i: nat | i < |y| ensures mem(a + |x| + i) == y[i] {
        assert (x + y)[|x| + i] == y[i];
        assert a + |x| + i == a + (|x| + i);
      }
    }
    if Holds(mem, a, x) && Holds(mem, a + |x|, y) {
      forall i: nat | i < |x + y| ensures mem(a + i) == (x + y)[i] {
        if i >= |x| { assert a + i == a + |x| + (i - |x|) && mem(a + |x| + (i - |x|)) == y[i - |x|]; }
      }
    }
  }

  /** Decoding an encoded table stops exactly at its end with the first 64 processors, in order,
      and the last I/O APIC. */
  lemma {:induction false} DecodesEntries(mem: Memory, p: nat, xs: seq<Entry>, cpus: seq<Byte>, ioapic: Byte)
    requires ValidEntries(xs) && |cpus| <= NCPU && Holds(mem, p, TableBytes(xs))
    ensures Decode(mem, p, p + |TableBytes(xs)|, cpus, ioapic)
         == Finished(Capped(cpus + ProcessorIds(xs)), LastIoApic(xs, ioapic), p + |TableBytes(xs)|)
    decreases |xs|
  {
    if xs == [] {
      assert cpus + [] == cpus;
    } else {
      var x, b := xs[0], EntryBytes(xs[0]);
      assert ValidEntry(x);
      HoldsSplit(mem, p, b, TableBytes(xs[1..]));
      assert mem(p + 0) == b[0] == x.kind && mem(p + 1) == b[1] == x.body[0];
      var cpus1 := if x.kind == 0 then AddCpu(cpus, x.body[0]) else cpus;
      var io1 := if x.kind == 2 then x.body[0] else ioapic;
      DecodesEntries(mem, p + |b|, xs[1..], cpus1, io1);
      if x.kind == 0 {
        CappedAdd(cpus, x.body[0], ProcessorIds(xs[1..]));
      } else {
        assert [] + ProcessorIds(xs[1..]) == ProcessorIds(xs[1..]);
      }
    }
  }

  /** The base table at conf consists of exactly these entries after its header. */
  ghost predicate TableHolds(mem: Memory, conf: nat, xs: seq<Entry>) {
    && ValidEntries(xs) && Holds(mem, conf + 44, TableBytes(xs))
    && TableLength(mem, conf) == 44 + |TableBytes(xs)|
  }

  lemma DecodesTable(mem: Memory, conf: nat, xs: seq<Entry>, ioapic: Byte)
    requires TableHolds(mem, conf, xs)
    ensures Decode(mem, conf + 44, conf + TableLength(mem, conf), [], ioapic)
         == Finished(Capped(ProcessorIds(xs)), LastIoApic(xs, ioapic), conf + TableLength(mem, conf))
  {
    hide Decode, TableBytes, ProcessorIds, LastIoApic, Holds, Word16;
    DecodesEntries(mem, conf + 44, xs, [], ioapic);
    assert [] + ProcessorIds(xs) == ProcessorIds(xs);
  }

  // ----- writing a table

  function SumBytes(s: seq<Byte>): nat {
    if s == [] then 0 else SumBytes(s[..|s| - 1]) + s[|s| - 1]
  }

  lemma {:induction false} HeldSum(mem: Memory, a: nat, s: seq<Byte>, n: nat)
    requires Holds(mem, a, s) && n <= |s|
    ensures SumOf(mem, a, n) == SumBytes(s[..n])
    decreases n
  {
    if n > 0 {
      assert s[..n][..n - 1] == s[..n - 1];
      HeldSum(mem, a, s, n - 1);
      assert mem(a + (n - 1)) == s[n - 1];
    }
  }

  lemma {:induction false} SumChanged(s: seq<Byte>, i: nat, b: Byte)
    requires i < |s|
    ensures SumBytes(s[i := b]) == SumBytes(s) - s[i] + b
    decreases |s|
  {
    var n := |s| - 1;
    if i < n {
      SumChanged(s[..n], i, b);
      assert s[i := b][..n] == s[..n][i := b];
    } else {
      assert s[i := b][..n] == s[..n];
    }
  }

  /** A table with these entries, this version and any other header bytes, its checksum left 0. */
  function Unsummed(version: Byte, rest: seq<Byte>, xs: seq<Entry>): (s: seq<Byte>)
    requires 44 + |TableBytes(xs)| < 0x1_0000 && |rest| == 36
    ensures |s| == 44 + |TableBytes(xs)|
  {
    var n := 44 + |TableBytes(xs)|;
    [0x50, 0x43, 0x4d, 0x50, n % 256, n / 256, version, 0] + rest + TableBytes(xs)
  }

  function Encoded(version: Byte, rest: seq<Byte>, xs: seq<Entry>): (s: seq<Byte>)
    requires 44 + |TableBytes(xs)| < 0x1_0000 && |rest| == 36
    ensures |s| == 44 + |TableBytes(xs)|
  {
    var s := Unsummed(version, rest, xs);
    s[7 := (256 - SumBytes(s) % 256) % 256]
  }

  lemma EncodedSum(version: Byte, rest: seq<Byte>, xs: seq<Entry>)
    requires 44 + |TableBytes(xs)| < 0x1_0000 && |rest| == 36
    ensures SumBytes(Encoded(version, rest, xs)) % 256 == 0
  {
    var s := Unsummed(version, rest, xs);
    assert s[7] == 0;
    hide SumBytes, Unsummed;
    SumChanged(s, 7, (256 - SumBytes(s) % 256) % 256);
    Complement(SumBytes(s));
  }

  lemma Complement(x: nat)
    ensures (x + (256 - x % 256) % 256) % 256 == 0
  {}

  lemma EncodedParts(version: Byte, rest: seq<Byte>, xs: seq<Entry>)
    requires 44 + |TableBytes(xs)| < 0x1_0000 && |rest| == 36
    ensures var s := Encoded(version, rest, xs);
            && s[0] == 0x50 && s[1] == 0x43 && s[2] == 0x4d && s[3] == 0x50
            && (s[4] as int) + 256 * (s[5] as int) == |s| && s[6] == version && s[44..] == TableBytes(xs)
  {
    hide TableBytes, SumBytes;
  }

  /** Wherever the encoding stands, it is a table that is accepted and that has these entries. */
  lemma EncodedIsTable(mem: Memory, conf: nat, version: Byte, rest: seq<Byte>, xs: seq<Entry>)
    requires 44 + |TableBytes(xs)| < 0x1_0000 && |rest| == 36 && (version == 1 || version == 4)
    requires ValidEntries(xs) && Holds(mem, conf, Encoded(version, rest, xs))
    ensures IsTable(mem, conf) && TableHolds(mem, conf, xs)
  {
    var s := Encoded(version, rest, xs);
    EncodedParts(version, rest, xs);
    EncodedSum(version, rest, xs);
    hide TableBytes, SumBytes, Encoded, SumOf, Word16, HasSignature, Holds;
    HeaderHeld(mem, conf, s);
    BodyHeld(mem, conf, s);
  }

  lemma BodyHeld(mem: Memory, conf: nat, s: seq<Byte>)
    requires Holds(mem, conf, s) && |s| >= 44
    ensures Holds(mem, conf + 44, s[44..]) && SumOf(mem, conf, |s|) == SumBytes(s)
  {
    hide SumBytes, SumOf;
    HeldSum(mem, conf, s, |s|);
    assert s[..|s|] == s;
    forall i: nat | i < |s[44..]| ensures mem(conf + 44 + i) == s[44..][i] {
      assert mem(conf + (44 + i)) == s[44 + i];
    }
  }

  lemma HeaderHeld(mem: Memory, conf: nat, s: seq<Byte>)
    requires Holds(mem, conf, s) && |s| >= 44
    requires s[0] == 0x50 && s[1] == 0x43 && s[2] == 0x4d && s[3] == 0x50
    ensures HasSignature(mem, conf, "PCMP") && mem(conf + 6) == s[6]
    ensures TableLength(mem, conf) == (s[4] as int) + 256 * (s[5] as int)
  {
    var word := "PCMP";
    forall i: nat | i < 4 ensures mem(conf + i) == word[i] as int {
      assert mem(conf + i) == s[i];
    }
    assert mem(conf + 4) == s[4] && mem(conf + 5) == s[5] && mem(conf + 6) == s[6];
    assert conf + 4 + 1 == conf + 5;
  }

  /** The four bytes of x stand at a, the least first. */
  predicate StoresAddress(mem: Memory, a: nat, x: nat) {
    && mem(a) == x % 0x100 && mem(a + 1) == x / 0x100 % 0x100
    && mem(a + 2) == x / 0x1_0000 % 0x100 && mem(a + 3) == x / 0x100_0000
  }

  /** Round trip: a table written at conf, with conf in the four bytes of the floating structure
      from the fourth on, is found, and decoding it gives the first 64 of the processors that were
      written and the last I/O APIC; the local APIC address stands where it was written. */
  lemma RoundTrip(mem: Memory, mp: nat, conf: nat, version: Byte, rest: seq<Byte>, xs: seq<Entry>, ioapic: Byte)
    requires 44 + |TableBytes(xs)| < 0x1_0000 && |rest| == 36 && (version == 1 || version == 4)
    requires Locate(mem) == Some(mp) && 0 < conf < 0x1_0000_0000
    requires StoresAddress(mem, mp + 4, conf)
    requires ValidEntries(xs) && Holds(mem, conf, Encoded(version, rest, xs))
    ensures TableBase(mem) == conf
    ensures mem(conf + 36) == rest[28] && mem(conf + 37) == rest[29]
    ensures mem(conf + 38) == rest[30] && mem(conf + 39) == rest[31]
    ensures Decode(mem, conf + 44, conf + TableLength(mem, conf), [], ioapic)
         == Finished(Capped(ProcessorIds(xs)), LastIoApic(xs, ioapic), conf + 44 + |TableBytes(xs)|)
  {
    AddressRead(mem, mp + 4, conf);
    RestHeld(mem, conf, version, rest, xs);
    hide Locate, IsTable, Decode, Holds, TableBytes, Encoded, ProcessorIds, LastIoApic, Word16, Word32, StoresAddress;
    EncodedIsTable(mem, conf, version, rest, xs);
    hide TableHolds, TableBase, ValidEntries, TableLength, Capped;
    TableFound(mem, mp, conf);
    DecodesTable(mem, conf, xs, ioapic);
    TableEnd(mem, conf, xs);
  }

  lemma TableFound(mem: Memory, mp: nat, conf: nat)
    requires Locate(mem) == Some(mp) && Word32(mem, mp + 4) == conf != 0 && IsTable(mem, conf)
    ensures TableBase(mem) == conf
  {
    hide Locate, IsTable, Word32;
  }

  lemma TableEnd(mem: Memory, conf: nat, xs: seq<Entry>)
    requires TableHolds(mem, conf, xs)
    ensures conf + TableLength(mem, conf) == conf + 44 + |TableBytes(xs)|
  {
    hide Holds, TableBytes, Word16;
  }

  lemma AddressRead(mem: Memory, a: nat, x: nat)
    requires x < 0x1_0000_0000 && StoresAddress(mem, a, x)
    ensures Word32(mem, a) == x
  {
    hide Word32;
    FourBytes(x);
    Word32Bytes(mem, a);
  }

  lemma FourBytes(x: nat)
    requires x < 0x1_0000_0000
    ensures x == x % 0x100 + 0x100 * (x / 0x100 % 0x100) + 0x1_0000 * (x / 0x1_0000 % 0x100)
                 + 0x100_0000 * (x / 0x100_0000)
  {
    var a := x / 0x100;
    var b := a / 0x100;
    assert x / 0x1_0000 == b && x / 0x100_0000 == b / 0x100;
  }

  lemma RestHeld(mem: Memory, conf: nat, version: Byte, rest: seq<Byte>, xs: seq<Entry>)
    requires 44 + |TableBytes(xs)| < 0x1_0000 && |rest| == 36 && Holds(mem, conf, Encoded(version, rest, xs))
    ensures mem(conf + 36) == rest[28] && mem(conf + 37) == rest[29]
    ensures mem(conf + 38) == rest[30] && mem(conf + 39) == rest[31]
  {
    hide TableBytes, SumBytes;
    var s := Encoded(version, rest, xs);
    assert mem(conf + 36) == s[36] && mem(conf + 37) == s[37] && mem(conf + 38) == s[38] && mem(conf + 39) == s[39];
  }

  /** These are the processors and the I/O APIC of the table at conf, if it is a list of entries. */
  ghost predicate Describes(mem: Memory, conf: nat, before: Byte, cpus: seq<Byte>, ioapic: Byte) {
    forall xs :: TableHolds(mem, conf, xs) ==>
                   && cpus == (if |ProcessorIds(xs)| <= 64 then ProcessorIds(xs) else ProcessorIds(xs)[..64])
                   && ioapic == LastIoApic(xs, before)
  }

  ghost predicate IsEntryList(mem: Memory, conf: nat) {
    exists xs :: TableHolds(mem, conf, xs)
  }

  lemma DecodesEveryTable(mem: Memory, conf: nat, ioapic: Byte)
    ensures var d := Decode(mem, conf + 44, conf + TableLength(mem, conf), [], ioapic);
            if d.Finished? then Describes(mem, conf, ioapic, d.cpus, d.ioapic) else !IsEntryList(mem, conf)
  {
    hide Decode, ProcessorIds, LastIoApic, Word16;
    forall xs | TableHolds(mem, conf, xs)
      ensures Decode(mem, conf + 44, conf + TableLength(mem, conf), [], ioapic)
           == Finished(Capped(ProcessorIds(xs)), LastIoApic(xs, ioapic), conf + TableLength(mem, conf))
    {
      DecodesTable(mem, conf, xs, ioapic);
    }
  }

  function EntryAt(mem: Memory, p: nat): Entry {
    Entry(mem(p), seq(EntrySize(mem(p)) - 1, (i: nat) => mem(p + 1 + i)))
  }

  lemma EntryAtHolds(mem: Memory, p: nat)
    ensures Holds(mem, p, EntryBytes(EntryAt(mem, p)))
    ensures mem(p) <= 4 ==> ValidEntry(EntryAt(mem, p))
    ensures |EntryBytes(EntryAt(mem, p))| == EntrySize(mem(p))
  {
    var b := EntryBytes(EntryAt(mem, p));
    forall i: nat | i < |b| ensures mem(p + i) == b[i] {
      if i > 0 {
        assert p + i == p + 1 + (i - 1);
      }
    }
  }

  /** Whole entries of known types stand from p up to q. */
  ghost predicate Entries(mem: Memory, p: nat, xs: seq<Entry>, q: nat) {
    ValidEntries(xs) && Holds(mem, p, TableBytes(xs)) && q == p + |TableBytes(xs)|
  }

  lemma PrependEntry(mem: Memory, p: nat, xs: seq<Entry>, q: nat)
    requires mem(p) <= 4 && Entries(mem, p + EntrySize(mem(p)), xs, q)
    ensures Entries(mem, p, [EntryAt(mem, p)] + xs, q)
  {
    hide Holds, EntryBytes, EntryAt, ValidEntry;
    var x := EntryAt(mem, p);
    EntryAtHolds(mem, p);
    assert ([x] + xs)[1..] == xs;
    HoldsSplit(mem, p, EntryBytes(x), TableBytes(xs));
  }

  /** Whatever memory holds, the decoder reads a list of whole entries and then either stands at
      or past the end, or stands before it on an entry of unknown type and never moves again. */
  lemma {:induction false} EveryRun(mem: Memory, p: nat, e: nat, cpus: seq<Byte>, ioapic: Byte)
    returns (xs: seq<Entry>, q: nat)
    ensures Entries(mem, p, xs, q)
    ensures match Decode(mem, p, e, cpus, ioapic)
            case Finished(_, _, stop) => stop == q >= e
            case Spins => q < e && mem(q) > 4
    decreases e - p
  {
    hide Entries, AddCpu, EntryAt;
    if p >= e || mem(p) > 4 {
      xs, q := [], p;
      assert Entries(mem, p, xs, q) by { assert TableBytes([]) == []; EmptyEntries(mem, p); }
    } else {
      var ys;
      ys, q := EveryRun(mem, p + EntrySize(mem(p)), e,
                        if mem(p) == 0 then AddCpu(cpus, mem(p + 1)) else cpus,
                        if mem(p) == 2 then mem(p + 1) else ioapic);
      xs := [EntryAt(mem, p)] + ys;
      PrependEntry(mem, p, ys, q);
    }
  }

  lemma EmptyEntries(mem: Memory, p: nat)
    ensures Entries(mem, p, [], p)
  {}

  /** The decoder stops exactly at the end of the table precisely when the table is a list of
      whole entries of types 0 to 4. */
  lemma StopsAtEndIff(mem: Memory, p: nat, e: nat, cpus: seq<Byte>, ioapic: Byte)
    requires |cpus| <= NCPU
    ensures (exists xs :: Entries(mem, p, xs, e))
       <==> (var d := Decode(mem, p, e, cpus, ioapic); d.Finished? && d.stop == e)
  {
    hide Decode, TableBytes, Holds, ProcessorIds, LastIoApic;
    if xs :| Entries(mem, p, xs, e) {
      DecodesEntries(mem, p, xs, cpus, ioapic);
    }
    var ys, q := EveryRun(mem, p, e, cpus, ioapic);
  }

  /** It never returns precisely when whole entries lead to an unknown type before the end. */
  lemma SpinsIff(mem: Memory, p: nat, e: nat, cpus: seq<Byte>, ioapic: Byte)
    requires |cpus| <= NCPU
    ensures Decode(mem, p, e, cpus, ioapic).Spins?
       <==> (exists xs, q: nat :: Entries(mem, p, xs, q) && q < e && mem(q) > 4)
  {
    hide Decode, TableBytes, Holds, ProcessorIds, LastIoApic;
    if xs, q: nat :| Entries(mem, p, xs, q) && q < e && mem(q) > 4 {
      UnknownSpins(mem, p, e, xs, q, cpus, ioapic);
    }
    var ys, q' := EveryRun(mem, p, e, cpus, ioapic);
  }

  lemma {:induction false} UnknownSpins(mem: Memory, p: nat, e: nat, xs: seq<Entry>, q: nat,
                                        cpus: seq<Byte>, ioapic: Byte)
    requires Entries(mem, p, xs, q) && q < e && mem(q) > 4
    ensures Decode(mem, p, e, cpus, ioapic).Spins?
    decreases |xs|
  {
    if xs == [] {
    } else {
      var b := EntryBytes(xs[0]);
      assert ValidEntry(xs[0]);
      HoldsSplit(mem, p, b, TableBytes(xs[1..]));
      assert mem(p + 0) == b[0] == xs[0].kind;
      UnknownSpins(mem, p + |b|, e, xs[1..], q,
                   if mem(p) == 0 then AddCpu(cpus, mem(p + 1)) else cpus,
                   if mem(p) == 2 then mem(p + 1) else ioapic);
    }
  }

  /** A table with a processor, a bus and an I/O APIC entry, byte by byte: the processor takes
      twenty bytes, the others eight, and the ids are their second bytes. */
  lemma SampleTable(mem: Memory, p: nat, cpus: seq<Byte>, ioapic: Byte)
    requires mem(p) == 0 && mem(p + 20) == 1 && mem(p + 28) == 2 && |cpus| < 64
    ensures Decode(mem, p, p + 36, cpus, ioapic) == Finished(cpus + [mem(p + 1)], mem(p + 29), p + 36)
  {
    var ids, io := cpus + [mem(p + 1)], mem(p + 29);
    assert Decode(mem, p + 36, p + 36, ids, io) == Finished(ids, io, p + 36);
    assert Decode(mem, p + 28, p + 36, ids, ioapic) == Decode(mem, p + 28 + 8, p + 36, ids, mem(p + 28 + 1));
    assert Decode(mem, p + 20, p + 36, ids, ioapic) == Decode(mem, p + 20 + 8, p + 36, ids, ioapic);
  }

  // ----- `mpinit`

  /** Where `mpinit` reads its table: without one it prints a message and goes on with a null
      pointer, that is, with the identity-mapped page 0. */
  function TableBase(mem: Memory): nat {
    var conf := Configuration(mem);
    if conf.Some? then conf.value else 0
  }

  class Machine {
    var cpus: seq<Byte>     // the apicid fields of the first ncpu entries
    var ioapicid: Byte
    var lapic: nat

    /** False where the source loops for ever. */
    method MpInit(mem: Memory) returns (ends: bool)
      modifies this
      ensures var base := TableBase(mem);
              var d := Decode(mem, base + 44, base + TableLength(mem, base), old(cpus), old(ioapicid));
              ends == d.Finished? && (ends ==> cpus == d.cpus && ioapicid == d.ioapic)
      ensures var l := TableBase(mem) + 36;
              lapic == mem(l) + 0x100 * mem(l + 1) + 0x1_0000 * mem(l + 2) + 0x100_0000 * mem(l + 3)
      ensures old(cpus) == [] && ends ==> Describes(mem, TableBase(mem), old(ioapicid), cpus, ioapicid)
      ensures old(cpus) == [] && IsEntryList(mem, TableBase(mem)) ==> ends
    {
      hide Configuration, Describes, IsEntryList, Decode, Word16, Word32;
      var conf := MpConfig(mem);
      var base := if conf.Some? then conf.value else 0;
      if cpus == [] {
        DecodesEveryTable(mem, base, ioapicid);
      }
      Word32Bytes(mem, base + 36);
      lapic := Word32(mem, base + 36);
      ends := DecodeLoop(mem, base);
    }

    method DecodeLoop(mem: Memory, conf: nat) returns (ends: bool)
      modifies this`cpus, this`ioapicid
      ensures var d := Decode(mem, conf + 44, conf + TableLength(mem, conf), old(cpus), old(ioapicid));
              ends == d.Finished? && (ends ==> cpus == d.cpus && ioapicid == d.ioapic)
    {
      var p, e := conf + 44, conf + TableLength(mem, conf);
      while p < e
        invariant Decode(mem, p, e, cpus, ioapicid)
               == Decode(mem, conf + 44, e, old(cpus), old(ioapicid))
        decreases e - p
      {
        match mem(p)
        case 0 =>
          if |cpus| < NCPU {
            cpus := cpus + [mem(p + 1)];
          }
          p := p + 20;
        case 2 =>
          ioapicid := mem(p + 1);
          p := p + 8;
        case 1 => p := p + 8;
        case 3 => p := p + 8;
        case 4 => p := p + 8;
        case _ => return false;
      }
      return true;
    }
  }
}
