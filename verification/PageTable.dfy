/** 4-level page tables held in a word-addressed physical memory.

    `Walk` is the processor's translation of a linear address (Intel SDM Volume 3A, section
    4.5) and is the specification; `TableAt` follows a path of table indices from a root.
    `TreesOk` is the shape and separation invariant, and the lemmas say how one store into a
    table, possibly together with a fresh zeroed page, changes tables and translations. */
module PageTable {
  import opened Bits
  import opened Values

  const PHYS_LIMIT := 0x10_0000_0000_0000   // 2^52, the physical addresses an entry can hold
  const VA_LIMIT := 0x1_0000_0000_0000      // 2^48, the linear addresses the walk looks at

  const PT_PRESENT_MASK := 1
  const PT_WRITABLE_MASK := 2
  const PT_USER_MASK := 4
  const PT_PAGE_SIZE_MASK := 128
  const PT_ADDR_MASK := 0xf_ffff_ffff_f000

  type Word = w: nat | w < 0x1_0000_0000_0000_0000

  datatype Translation = Fault | Mapped(pa: nat, writable: bool, user: bool)

  // ----- index arithmetic of page.h

  function PgdirBits(level: nat): nat
    requires 1 <= level <= 4
  {
    (level - 1) * 9 + 12
  }

  /** Which entry of a table at this level the processor uses for `va`. */
  function Idx(va: nat, level: nat): (i: nat)
    requires 1 <= level <= 4
    ensures i < 512
  {
    match level
    case 1 => va / 0x1000 % 512
    case 2 => va / 0x20_0000 % 512
    case 3 => va / 0x4000_0000 % 512
    case _ => va / 0x80_0000_0000 % 512
  }

  /** `x` rounded down to what one entry at this level translates. */
  function RoundDown(x: nat, level: nat): nat
    requires 1 <= level <= 3
  {
    match level case 1 => x - x % 0x1000 case 2 => x - x % 0x20_0000 case _ => x - x % 0x4000_0000
  }

  function PgdirOffset(va: nat, level: nat): (i: nat)
    requires 1 <= level <= 4
    ensures i == Idx(va, level)
  {
    OffsetMeaning(va, level);
    And(Shr(va, PgdirBits(level)), 511)
  }

  lemma OffsetMeaning(va: nat, level: nat)
    requires 1 <= level <= 4
    ensures And(Shr(va, PgdirBits(level)), 511) == Idx(va, level)
  {
    var y := Shr(va, PgdirBits(level));
    assert And(y, 511) == y % 512 by {
      assert Pow2(9) == 512;
      AndLowMask(y, 9);
    }
    ShrDivides(va, PgdirBits(level));
    assert Pow2(12) == 0x1000;
    assert Pow2(21) == 0x20_0000;
    assert Pow2(30) == 0x4000_0000;
    assert Pow2(39) == 0x80_0000_0000;
  }

  // ----- entries

  predicate Present(e: nat) { e % 2 == 1 }
  predicate Writable(e: nat) { e / 2 % 2 == 1 }
  predicate User(e: nat) { e / 4 % 2 == 1 }
  predicate Large(e: nat) { e / 128 % 2 == 1 }

  /** Bits 51:12 of an entry, as an address. */
  function Frame(e: nat): nat { e % PHYS_LIMIT - e % 4096 }

  /** A present entry that points to the next table. */
  predicate Links(e: nat) { Present(e) && !Large(e) }

  lemma MaskMeanings(e: nat)
    ensures (And(e, PT_PRESENT_MASK) != 0) <==> Present(e)
    ensures And(e, PT_ADDR_MASK) == Frame(e)
  {
    assert Pow2(1) == 2;
    assert Pow2(12) == 4096;
    assert Pow2(22) == 0x40_0000;
    assert Pow2(32) == 0x1_0000_0000;
    assert Pow2(42) == 0x400_0000_0000;
    assert Pow2(52) == PHYS_LIMIT;
    AndLowMask(e, 1);
    AndRangeMask(e, 52, 12);
  }

  /** An address with the present, writable and user bits set. */
  function TableFlags(a: nat): nat {
    Or(Or(Or(a, PT_PRESENT_MASK), PT_WRITABLE_MASK), PT_USER_MASK)
  }

  lemma SevenFlags(e: nat)
    requires e % 8 == 7
    ensures Present(e) && Writable(e) && User(e)
  {
    assert e == 8 * (e / 8) + 7;
    assert e / 2 == 4 * (e / 8) + 3;
    assert e / 4 == 2 * (e / 8) + 1;
  }

  lemma LowBits(a: nat) returns (q: nat, x: nat, y: nat, z: nat)
    ensures x < 2 && y < 2 && z < 2 && a == 8 * q + 4 * x + 2 * y + z && a - a % 8 == 8 * q
  {
    q, x, y, z := a / 2 / 2 / 2, a / 2 / 2 % 2, a / 2 % 2, a % 2;
    DivModUnique(a, 8, q, 4 * x + 2 * y + z);
  }

  lemma TableFlagsMeaning(a: nat)
    ensures TableFlags(a) == a - a % 8 + 7
  {
    var q, x, y, z := LowBits(a);
    assert Pow2(0) == 1 && Pow2(1) == 2 && Pow2(2) == 4;
    hide Or, Pow2;
    var b, c := 8 * q + 4 * x + 2 * y + 1, 8 * q + 4 * x + 3;
    assert Or(a, 1) == b by { SetBit(a, 0, 1, 4 * q + 2 * x + y, z, 0); }
    assert Or(b, 2) == c by { SetBit(b, 1, 2, 2 * q + x, y, 1); }
    assert Or(c, 4) == 8 * q + 7 by { SetBit(c, 2, 4, q, x, 3); }
  }

  lemma SetSizeBit(q: nat, b: nat, e: nat)
    requires b == 8 * q + 7
    requires e == if b / 128 % 2 == 1 then b else b + 128
    ensures e % 8 == 7 && Large(e) && e / 256 == q / 32
  {
    assert b / 128 == q / 16;
    if q / 16 % 2 == 1 {
      assert e / 128 == q / 16;
    } else {
      assert e / 128 == q / 16 + 1;
    }
    assert e / 256 == (e / 128) / 2;
    assert q / 32 == (q / 16) / 2;
  }

  lemma LargeFlagMeaning(a: nat)
    ensures var e := Or(TableFlags(a), PT_PAGE_SIZE_MASK);
            e % 8 == 7 && Large(e) && e / 256 == a / 256
  {
    var b := TableFlags(a);
    var e := Or(b, 128);
    assert b == 8 * (a / 8) + 7 by { TableFlagsMeaning(a); }
    assert e == if b / 128 % 2 == 1 then b else b + 128 by { assert Pow2(7) == 128; OrBit(b, 7); }
    SetSizeBit(a / 8, b, e);
  }

  // ----- the processor's walk

  function Read(m: seq<Word>, i: int): Word {
    if 0 <= i < |m| then m[i] else 0
  }

  /** Entry `i` of the table at byte address `t`. */
  function Entry(m: seq<Word>, t: nat, i: nat): Word {
    Read(m, t / 8 + i)
  }

  /** The translation given by an entry that ends the walk. */
  function Leaf(level: nat, e: nat, va: nat): Translation
    requires 1 <= level <= 3
  {
    Mapped(RoundDown(e % PHYS_LIMIT, level) + (va - RoundDown(va, level)), Writable(e), User(e))
  }

  function Walk(m: seq<Word>, t: nat, level: nat, va: nat): Translation
    requires 1 <= level <= 4
    decreases level
  {
    var e := Entry(m, t, Idx(va, level));
    if !Present(e) then Fault
    else if level == 1 || (level < 4 && Large(e)) then Leaf(level, e, va)
    else if Large(e) then Fault    // reserved at level 4
    else
      match Walk(m, Frame(e), level - 1, va)
      case Fault => Fault
      case Mapped(pa, w, u) => Mapped(pa, w && Writable(e), u && User(e))
  }

  function Translate(m: seq<Word>, root: nat, va: nat): Translation {
    Walk(m, root, 4, va)
  }

  // ----- paths and shape

  type Path = seq<nat>

  predicate ValidPath(q: Path) {
    |q| <= 3 && forall i :: 0 <= i < |q| ==> q[i] < 512
  }

  function PathOf(va: nat): (p: Path)
    ensures |p| == 4 && forall i :: 0 <= i < 4 ==> p[i] == Idx(va, 4 - i)
  {
    [Idx(va, 4), Idx(va, 3), Idx(va, 2), Idx(va, 1)]
  }

  /** The table reached from `root` by following `q`, one index per level. */
  function TableAt(m: seq<Word>, root: nat, q: Path): Option<nat>
    decreases |q|
  {
    if q == [] then Some(root)
    else
      var up := TableAt(m, root, q[..|q| - 1]);
      if up.None? then None
      else
        var e := Entry(m, up.value, q[|q| - 1]);
        if Links(e) then Some(Frame(e)) else None
  }

  /** `a` is a whole page of memory, and not the null pointer. */
  predicate PageAt(m: seq<Word>, a: nat) {
    a % 4096 == 0 && 0 < a && a + 4096 <= 8 * |m|
  }

  predicate InPage(a: nat, i: int) {
    a / 8 <= i < a / 8 + 512
  }

  ghost predicate TablesArePages(m: seq<Word>, roots: set<nat>) {
    forall r, q {:trigger TableAt(m, r, q)} ::
      r in roots && ValidPath(q) && TableAt(m, r, q).Some? ==> PageAt(m, TableAt(m, r, q).value)
  }

  /** Every table page is reached from one root only, and by one path only. */
  ghost predicate TablesAreUnique(m: seq<Word>, roots: set<nat>) {
    forall r, q, s, p {:trigger TableAt(m, r, q), TableAt(m, s, p)} ::
      (r in roots && s in roots && ValidPath(q) && ValidPath(p)
       && TableAt(m, r, q).Some? && TableAt(m, r, q) == TableAt(m, s, p)) ==> r == s && q == p
  }

  /** Links between tables grant write and user access, so that the leaf decides. */
  ghost predicate LinksArePermissive(m: seq<Word>, roots: set<nat>) {
    forall r, q, i: nat {:trigger Entry(m, TableAt(m, r, q).value, i)} ::
      (r in roots && ValidPath(q) && |q| < 3 && i < 512 && TableAt(m, r, q).Some?
       && Links(Entry(m, TableAt(m, r, q).value, i))) ==> Entry(m, TableAt(m, r, q).value, i) % 8 == 7
  }

  ghost predicate TreesOk(m: seq<Word>, roots: set<nat>) {
    && 8 * |m| <= PHYS_LIMIT
    && TablesArePages(m, roots)
    && TablesAreUnique(m, roots)
    && LinksArePermissive(m, roots)
  }

  ghost predicate NotATable(m: seq<Word>, roots: set<nat>, a: nat) {
    forall r, q {:trigger TableAt(m, r, q)} :: r in roots && ValidPath(q) ==> TableAt(m, r, q) != Some(a)
  }

  /** Entry `i` of table `q` maps a large page. */
  predicate LargeAt(m: seq<Word>, r: nat, q: Path, i: nat) {
    && TableAt(m, r, q).Some?
    && Present(Entry(m, TableAt(m, r, q).value, i)) && Large(Entry(m, TableAt(m, r, q).value, i))
  }

  // ----- basic facts

  lemma SlotsDiffer(a: nat, i: nat, b: nat, j: nat)
    requires a % 4096 == 0 && b % 4096 == 0 && i < 512 && j < 512 && a / 8 + i == b / 8 + j
    ensures a == b && i == j
  {
    assert a == 4096 * (a / 4096) && b == 4096 * (b / 4096);
    assert a / 8 == 512 * (a / 4096) && b / 8 == 512 * (b / 4096);
  }

  lemma PagesApart(a: nat, i: nat, x: nat)
    requires a % 4096 == 0 && x % 4096 == 0 && i < 512 && a != x
    ensures !InPage(x, a / 8 + i)
  {
    if InPage(x, a / 8 + i) { SlotsDiffer(a, i, x, a / 8 + i - x / 8); }
  }

  /** Tables on a path exist up to some depth and not beyond it. */
  lemma {:induction false} TablePrefix(m: seq<Word>, r: nat, q: Path, k: nat)
    requires k <= |q| && TableAt(m, r, q).Some?
    ensures TableAt(m, r, q[..k]).Some?
    decreases |q|
  {
    if k < |q| {
      assert q[..|q| - 1][..k] == q[..k];
      TablePrefix(m, r, q[..|q| - 1], k);
    } else {
      assert q[..k] == q;
    }
  }

  lemma WalkStep(m: seq<Word>, t: nat, level: nat, va: nat)
    requires 2 <= level <= 4
    requires Links(Entry(m, t, Idx(va, level))) && Entry(m, t, Idx(va, level)) % 8 == 7
    ensures Walk(m, t, level, va) == Walk(m, Frame(Entry(m, t, Idx(va, level))), level - 1, va)
  {
    SevenFlags(Entry(m, t, Idx(va, level)));
  }

  /** Walking from the root is walking from any table on the address's path. */
  lemma {:induction false} WalkDescends(m: seq<Word>, roots: set<nat>, r: nat, va: nat, k: nat)
    requires LinksArePermissive(m, roots) && r in roots && k <= 3
    requires TableAt(m, r, PathOf(va)[..k]).Some?
    ensures Translate(m, r, va) == Walk(m, TableAt(m, r, PathOf(va)[..k]).value, 4 - k, va)
  {
    if k > 0 {
      var v := PathOf(va)[..k];
      assert v[..k - 1] == PathOf(va)[..k - 1];
      assert v[k - 1] == Idx(va, 5 - k);
      TablePrefix(m, r, v, k - 1);
      WalkDescends(m, roots, r, va, k - 1);
      WalkStep(m, TableAt(m, r, v[..k - 1]).value, 5 - k, va);
    }
  }

  // ----- one store into a table, and a page outside every table

  /** The memories differ at most in one word and inside page `x`. */
  ghost predicate SameExcept(m: seq<Word>, m2: seq<Word>, slot: nat, x: nat) {
    |m| == |m2| && forall i :: 0 <= i < |m| && i != slot && !InPage(x, i) ==> m2[i] == m[i]
  }

  /** Entry `idx` of table `p` of tree `c` is the one table word that may differ. */
  ghost predicate OneSlot(m: seq<Word>, m2: seq<Word>, roots: set<nat>, c: nat, p: Path, idx: nat, x: nat) {
    && c in roots && ValidPath(p) && idx < 512 && TableAt(m, c, p).Some?
    && x % 4096 == 0 && NotATable(m, roots, x)
    && SameExcept(m, m2, TableAt(m, c, p).value / 8 + idx, x)
  }

  lemma EntryStable(m: seq<Word>, m2: seq<Word>, roots: set<nat>, c: nat, p: Path, idx: nat, x: nat,
                    r: nat, q: Path, i: nat)
    requires TablesArePages(m, roots) && TablesAreUnique(m, roots) && OneSlot(m, m2, roots, c, p, idx, x)
    requires r in roots && ValidPath(q) && i < 512 && TableAt(m, r, q).Some?
    requires !(r == c && q == p && i == idx)
    ensures Entry(m2, TableAt(m, r, q).value, i) == Entry(m, TableAt(m, r, q).value, i)
  {
    var t, s := TableAt(m, r, q).value, TableAt(m, c, p).value;
    assert PageAt(m, t) && PageAt(m, s);
    assert t != x;
    PagesApart(t, i, x);
    assert t / 8 + i != s / 8 + idx by {
      if t / 8 + i == s / 8 + idx { SlotsDiffer(t, i, s, idx); }
    }
  }

  /** Tables not reached through the changed entry stay where they are. */
  lemma {:induction false} TableStable(m: seq<Word>, m2: seq<Word>, roots: set<nat>, c: nat, p: Path, idx: nat,
                                       x: nat, r: nat, q: Path)
    requires TablesArePages(m, roots) && TablesAreUnique(m, roots) && OneSlot(m, m2, roots, c, p, idx, x)
    requires r in roots && ValidPath(q) && !(r == c && p + [idx] <= q)
    ensures TableAt(m2, r, q) == TableAt(m, r, q)
    decreases |q|
  {
    if q != [] {
      var up, last := q[..|q| - 1], q[|q| - 1];
      assert q == up + [last];
      TableStable(m, m2, roots, c, p, idx, x, r, up);
      if TableAt(m, r, up).Some? {
        EntryStable(m, m2, roots, c, p, idx, x, r, up, last);
      }
    }
  }

  /** Addresses not translated through the changed entry keep their translation. */
  lemma {:induction false} WalkStable(m: seq<Word>, m2: seq<Word>, roots: set<nat>, c: nat, p: Path, idx: nat,
                                      x: nat, r: nat, va: nat, k: nat)
    requires TablesArePages(m, roots) && TablesAreUnique(m, roots) && OneSlot(m, m2, roots, c, p, idx, x)
    requires r in roots && !(r == c && p + [idx] <= PathOf(va))
    requires k <= 3 && TableAt(m, r, PathOf(va)[..k]).Some?
    ensures Walk(m2, TableAt(m, r, PathOf(va)[..k]).value, 4 - k, va)
         == Walk(m, TableAt(m, r, PathOf(va)[..k]).value, 4 - k, va)
    decreases 3 - k
  {
    var v := PathOf(va);
    var t := TableAt(m, r, v[..k]).value;
    assert v[..k + 1] == v[..k] + [v[k]];
    EntryStable(m, m2, roots, c, p, idx, x, r, v[..k], v[k]);
    var e := Entry(m, t, v[k]);
    if k < 3 && Links(e) {
      assert v[..k + 1][..k] == v[..k];
      WalkStable(m, m2, roots, c, p, idx, x, r, va, k + 1);
    }
  }

  /** After the store, the tables below entry `s` are gone, except `child` at `s` itself. */
  ghost predicate TablesAfter(m: seq<Word>, m2: seq<Word>, roots: set<nat>, c: nat, s: Path, child: Option<nat>) {
    forall r, q {:trigger TableAt(m, r, q)} {:trigger TableAt(m2, r, q)} :: r in roots && ValidPath(q) ==>
      TableAt(m2, r, q) == if r == c && s <= q then (if q == s then child else None) else TableAt(m, r, q)
  }

  ghost predicate ZeroPage(m: seq<Word>, x: nat) {
    forall i: nat :: i < 512 ==> Entry(m, x, i) == 0
  }

  /** The store replaces the entry by `e`; if `e` links, it links to the zeroed page `x`. */
  ghost predicate StoresEntry(m: seq<Word>, m2: seq<Word>, roots: set<nat>, c: nat, p: Path, idx: nat, x: nat,
                              e: nat) {
    && OneSlot(m, m2, roots, c, p, idx, x)
    && Entry(m2, TableAt(m, c, p).value, idx) == e
    && (|p| < 3 && Links(e) ==> Frame(e) == x && e % 8 == 7 && PageAt(m, x) && ZeroPage(m2, x))
  }

  /** The table that entry `e` of a table at depth `depth` points to. */
  function LinkOf(depth: nat, e: nat): Option<nat> {
    if depth < 3 && Links(e) then Some(Frame(e)) else None
  }

  lemma {:induction false} NothingBelow(m: seq<Word>, r: nat, q: Path, k: nat)
    requires k <= |q| && TableAt(m, r, q[..k]).None?
    ensures TableAt(m, r, q).None?
  {
    if TableAt(m, r, q).Some? { TablePrefix(m, r, q, k); }
  }

  lemma StoreTables(m: seq<Word>, m2: seq<Word>, roots: set<nat>, c: nat, p: Path, idx: nat, x: nat, e: nat,
                    r: nat, q: Path)
    requires TablesArePages(m, roots) && TablesAreUnique(m, roots) && StoresEntry(m, m2, roots, c, p, idx, x, e)
    requires r in roots && ValidPath(q)
    ensures var s := p + [idx];
            TableAt(m2, r, q)
            == if r == c && s <= q then (if q == s then LinkOf(|p|, e) else None) else TableAt(m, r, q)
  {
    hide TableAt, TablesArePages, TablesAreUnique, NotATable, SameExcept;
    if r == c && p + [idx] <= q {
      TableStable(m, m2, roots, c, p, idx, x, c, p);
      StoredTables(m2, c, p, idx, x, e, q);
    } else {
      TableStable(m, m2, roots, c, p, idx, x, r, q);
    }
  }

  lemma StoredTables(m2: seq<Word>, c: nat, p: Path, idx: nat, x: nat, e: nat, q: Path)
    requires TableAt(m2, c, p).Some? && Entry(m2, TableAt(m2, c, p).value, idx) == e
    requires |p| < 3 && Links(e) ==> Frame(e) == x && ZeroPage(m2, x)
    requires ValidPath(q) && p + [idx] <= q
    ensures TableAt(m2, c, q) == if q == p + [idx] then LinkOf(|p|, e) else None
  {
    var s := p + [idx];
    assert s[..|s| - 1] == p && s[|s| - 1] == idx;
    assert q[..|s|] == s;
    if q != s && Links(e) {
      var s2 := q[..|s| + 1];
      assert s2[..|s2| - 1] == s;
      assert Entry(m2, x, s2[|s2| - 1]) == 0;
      NothingBelow(m2, c, q, |s| + 1);
    } else if q != s {
      NothingBelow(m2, c, q, |s|);
    }
  }

  lemma StoreTablesAll(m: seq<Word>, m2: seq<Word>, roots: set<nat>, c: nat, p: Path, idx: nat, x: nat, e: nat)
    requires TablesArePages(m, roots) && TablesAreUnique(m, roots) && StoresEntry(m, m2, roots, c, p, idx, x, e)
    ensures TablesAfter(m, m2, roots, c, p + [idx], LinkOf(|p|, e))
  {
    forall r, q | r in roots && ValidPath(q)
      ensures TableAt(m2, r, q) == if r == c && p + [idx] <= q then (if q == p + [idx] then LinkOf(|p|, e) else None)
                                   else TableAt(m, r, q)
    {
      StoreTables(m, m2, roots, c, p, idx, x, e, r, q);
    }
  }

  lemma StoreKeepsPages(m: seq<Word>, m2: seq<Word>, roots: set<nat>, c: nat, s: Path, child: Option<nat>)
    requires TablesArePages(m, roots) && TablesAfter(m, m2, roots, c, s, child) && |m| == |m2|
    requires child.Some? ==> PageAt(m, child.value)
    ensures TablesArePages(m2, roots)
  {}

  lemma StoreKeepsUnique(m: seq<Word>, m2: seq<Word>, roots: set<nat>, c: nat, s: Path, child: Option<nat>)
    requires TablesAreUnique(m, roots) && TablesAfter(m, m2, roots, c, s, child)
    requires child.Some? ==> NotATable(m, roots, child.value)
    ensures TablesAreUnique(m2, roots)
  {}

  lemma StoreKeepsPermissive(m: seq<Word>, m2: seq<Word>, roots: set<nat>, c: nat, p: Path, idx: nat, x: nat, e: nat)
    requires TreesOk(m, roots) && StoresEntry(m, m2, roots, c, p, idx, x, e)
    ensures LinksArePermissive(m2, roots)
  {
    forall r, q, i: nat | r in roots && ValidPath(q) && |q| < 3 && i < 512 && TableAt(m2, r, q).Some?
      ensures var e2 := Entry(m2, TableAt(m2, r, q).value, i); Links(e2) ==> e2 % 8 == 7
    {
      StoreTables(m, m2, roots, c, p, idx, x, e, r, q);
      if !(r == c && q == p + [idx]) && !(r == c && q == p && i == idx) {
        EntryStable(m, m2, roots, c, p, idx, x, r, q, i);
      }
    }
  }

  /** Storing a leaf, or linking a zeroed page, keeps every tree well formed. */
  lemma StoreKeepsTrees(m: seq<Word>, m2: seq<Word>, roots: set<nat>, c: nat, p: Path, idx: nat, x: nat, e: nat)
    requires TreesOk(m, roots) && StoresEntry(m, m2, roots, c, p, idx, x, e)
    ensures TreesOk(m2, roots)
    ensures TablesAfter(m, m2, roots, c, p + [idx], LinkOf(|p|, e))
  {
    StoreTablesAll(m, m2, roots, c, p, idx, x, e);
    StoreKeepsPages(m, m2, roots, c, p + [idx], LinkOf(|p|, e));
    StoreKeepsUnique(m, m2, roots, c, p + [idx], LinkOf(|p|, e));
    StoreKeepsPermissive(m, m2, roots, c, p, idx, x, e);
  }

  /** A store creates no large page except by the stored entry. */
  lemma StoreNoLarge(m: seq<Word>, m2: seq<Word>, roots: set<nat>, c: nat, p: Path, idx: nat, x: nat, e: nat,
                     r: nat, q: Path, i: nat)
    requires TreesOk(m, roots) && StoresEntry(m, m2, roots, c, p, idx, x, e)
    requires r in roots && ValidPath(q) && i < 512 && LargeAt(m2, r, q, i)
    requires !(r == c && q == p && i == idx && Large(e))
    ensures LargeAt(m, r, q, i)
  {
    StoreTables(m, m2, roots, c, p, idx, x, e, r, q);
    if !(r == c && q == p && i == idx) && !(r == c && p + [idx] <= q) {
      EntryStable(m, m2, roots, c, p, idx, x, r, q, i);
    }
  }

  /** Addresses not translated through the stored entry keep their translation. */
  lemma OtherWalks(m: seq<Word>, m2: seq<Word>, roots: set<nat>, c: nat, p: Path, idx: nat, x: nat, r: nat, va: nat)
    requires TreesOk(m, roots) && OneSlot(m, m2, roots, c, p, idx, x)
    requires r in roots && !(r == c && p + [idx] <= PathOf(va))
    ensures Translate(m2, r, va) == Translate(m, r, va)
  {
    assert PathOf(va)[..0] == [];
    WalkStable(m, m2, roots, c, p, idx, x, r, va, 0);
  }

  /** What an entry that links to no table translates to. */
  function EndOfWalk(level: nat, e: nat, va: nat): Translation
    requires 1 <= level <= 4
  {
    if Present(e) && level < 4 then Leaf(level, e, va) else Fault
  }

  /** The walk of an address through table `p` is the walk from that table. */
  lemma WalkFrom(m: seq<Word>, roots: set<nat>, c: nat, p: Path, idx: nat, va: nat)
    requires LinksArePermissive(m, roots) && c in roots && ValidPath(p) && TableAt(m, c, p).Some?
    requires p + [idx] <= PathOf(va)
    ensures Idx(va, 4 - |p|) == idx
    ensures Translate(m, c, va) == Walk(m, TableAt(m, c, p).value, 4 - |p|, va)
  {
    var v := PathOf(va);
    assert v[..|p| + 1] == p + [idx];
    assert v[..|p|] == p;
    assert v[|p|] == (p + [idx])[|p|];
    WalkDescends(m, roots, c, va, |p|);
  }

  /** A stored leaf translates the addresses of its entry. */
  lemma LeafWalks(m: seq<Word>, m2: seq<Word>, roots: set<nat>, c: nat, p: Path, idx: nat, x: nat, e: nat, va: nat)
    requires TreesOk(m, roots) && StoresEntry(m, m2, roots, c, p, idx, x, e)
    requires LinksArePermissive(m2, roots)
    requires !(|p| < 3 && Links(e)) && p + [idx] <= PathOf(va)
    ensures Translate(m2, c, va) == EndOfWalk(4 - |p|, e, va)
  {
    TableStable(m, m2, roots, c, p, idx, x, c, p);
    WalkFrom(m2, roots, c, p, idx, va);
  }

  lemma EmptyTableFaults(m: seq<Word>, x: nat, level: nat, va: nat)
    requires 1 <= level <= 4 && ZeroPage(m, x)
    ensures Walk(m, x, level, va) == Fault
  {
    assert Entry(m, x, Idx(va, level)) == 0;
  }

  /** Linking a zeroed page where nothing was present changes no translation. */
  lemma LinkKeepsWalks(m: seq<Word>, m2: seq<Word>, roots: set<nat>, c: nat, p: Path, idx: nat, x: nat, e: nat,
                       r: nat, va: nat)
    requires TreesOk(m, roots) && StoresEntry(m, m2, roots, c, p, idx, x, e)
    requires LinksArePermissive(m2, roots)
    requires |p| < 3 && Links(e) && !Present(Entry(m, TableAt(m, c, p).value, idx)) && r in roots
    ensures Translate(m2, r, va) == Translate(m, r, va)
  {
    if r == c && p + [idx] <= PathOf(va) {
      TableStable(m, m2, roots, c, p, idx, x, c, p);
      WalkFrom(m, roots, c, p, idx, va);
      WalkFrom(m2, roots, c, p, idx, va);
      WalkStep(m2, TableAt(m, c, p).value, 4 - |p|, va);
      EmptyTableFaults(m2, x, 3 - |p|, va);
    } else {
      OtherWalks(m, m2, roots, c, p, idx, x, r, va);
    }
  }

  // ----- a new, empty tree

  /** A zeroed page that is no table can be added as the root of an empty tree. */
  lemma AddRoot(m: seq<Word>, roots: set<nat>, x: nat)
    requires TreesOk(m, roots) && PageAt(m, x) && NotATable(m, roots, x) && ZeroPage(m, x)
    ensures TreesOk(m, roots + {x})
    ensures forall q {:trigger TableAt(m, x, q)} ::
              ValidPath(q) ==> TableAt(m, x, q) == if q == [] then Some(x) else None
    ensures forall va: nat :: Translate(m, x, va) == Fault
  {
    forall q | ValidPath(q) ensures TableAt(m, x, q) == if q == [] then Some(x) else None {
      if q != [] {
        assert q[..1][..0] == [];
        assert Entry(m, x, q[..1][0]) == 0;
        NothingBelow(m, x, q, 1);
      }
    }
    forall va: nat ensures Translate(m, x, va) == Fault {
      EmptyTableFaults(m, x, 4, va);
    }
    assert LinksArePermissive(m, roots + {x});
  }

  ghost predicate SameEntries(m: seq<Word>, m2: seq<Word>, roots: set<nat>) {
    forall r, q, i: nat :: r in roots && ValidPath(q) && TableAt(m, r, q).Some? && i < 512 ==>
      Entry(m2, TableAt(m, r, q).value, i) == Entry(m, TableAt(m, r, q).value, i)
  }

  /** A change to words outside every table changes no table and no translation. */
  lemma OutsideTables(m: seq<Word>, m2: seq<Word>, roots: set<nat>)
    requires TreesOk(m, roots) && |m| == |m2| && SameEntries(m, m2, roots)
    ensures TreesOk(m2, roots)
    ensures forall r, q {:trigger TableAt(m, r, q)} {:trigger TableAt(m2, r, q)} ::
              r in roots && ValidPath(q) ==> TableAt(m2, r, q) == TableAt(m, r, q)
    ensures forall r, va: nat :: r in roots ==> Translate(m2, r, va) == Translate(m, r, va)
  {
    forall r, q | r in roots && ValidPath(q) ensures TableAt(m2, r, q) == TableAt(m, r, q) {
      SameTables(m, m2, roots, r, q);
    }
    forall r, va: nat | r in roots ensures Translate(m2, r, va) == Translate(m, r, va) {
      assert PathOf(va)[..0] == [];
      SameWalks(m, m2, roots, r, va, 0);
    }
  }

  lemma {:induction false} SameTables(m: seq<Word>, m2: seq<Word>, roots: set<nat>, r: nat, q: Path)
    requires SameEntries(m, m2, roots) && r in roots && ValidPath(q)
    ensures TableAt(m2, r, q) == TableAt(m, r, q)
    decreases |q|
  {
    if q != [] {
      SameTables(m, m2, roots, r, q[..|q| - 1]);
    }
  }

  lemma {:induction false} SameWalks(m: seq<Word>, m2: seq<Word>, roots: set<nat>, r: nat, va: nat, k: nat)
    requires SameEntries(m, m2, roots) && r in roots
    requires k <= 3 && TableAt(m, r, PathOf(va)[..k]).Some?
    ensures Walk(m2, TableAt(m, r, PathOf(va)[..k]).value, 4 - k, va)
         == Walk(m, TableAt(m, r, PathOf(va)[..k]).value, 4 - k, va)
    decreases 3 - k
  {
    var v := PathOf(va);
    var t := TableAt(m, r, v[..k]).value;
    assert ValidPath(v[..k]);
    var e := Entry(m, t, v[k]);
    assert Entry(m2, t, v[k]) == e;
    if k < 3 && Links(e) {
      assert v[..k + 1][..k] == v[..k];
      SameWalks(m, m2, roots, r, va, k + 1);
    }
  }
}
