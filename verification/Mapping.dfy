/** What a run of 4 KiB installs does to a tree: which addresses it maps, which tables exist
    afterwards, and how many table pages it takes from the free list. */
module Mapping {
  import opened Bits
  import opened PageTable
  import opened PagePaths
  import opened HeapSpec
  import opened Values

  /** The page frame of a physical address. */
  function PhysPage(phys: nat): nat {
    RoundDown(phys % PHYS_LIMIT, 1)
  }

  /** Bits below the page size do not reach the frame. */
  lemma SameFrame(x: nat, y: nat)
    requires x / 4096 == y / 4096
    ensures PhysPage(x) == PhysPage(y)
  {
    var k := x / 4096;
    var m := 0x100_0000_0000;
    assert x == 4096 * k + x % 4096 && y == 4096 * k + y % 4096;
    assert k == (k / m) * m + k % m;
    DivModUnique(x, PHYS_LIMIT, k / m, 4096 * (k % m) + x % 4096);
    DivModUnique(y, PHYS_LIMIT, k / m, 4096 * (k % m) + y % 4096);
    DivModUnique(4096 * (k % m) + x % 4096, 4096, k % m, x % 4096);
    DivModUnique(4096 * (k % m) + y % 4096, 4096, k % m, y % 4096);
  }

  /** The entry written by `install_page` maps its page to the frame, writable and for users. */
  lemma PageEntry(phys: nat, va: nat)
    ensures EndOfWalk(1, TableFlags(phys), va) == Mapped(PhysPage(phys) + va % 4096, true, true)
  {
    var e := TableFlags(phys);
    TableFlagsMeaning(phys);
    assert e == 8 * (phys / 8) + 7;
    assert e % 8 == 7 by { DivModUnique(e, 8, phys / 8, 7); }
    SevenFlags(e);
    assert e / 4096 == phys / 4096 by { SameBlock(phys, e); }
    SameFrame(e, phys);
  }

  lemma SameBlock(x: nat, e: nat)
    requires e == 8 * (x / 8) + 7
    ensures e / 4096 == x / 4096
  {
    var k, r := x / 4096, x % 4096;
    assert x == 4096 * k + r;
    assert x / 8 == 512 * k + r / 8 by { DivModUnique(x, 8, 512 * k + r / 8, r % 8); }
    DivModUnique(e, 4096, k, 8 * (r / 8) + 7);
  }

  /** The 2 MiB frame of a physical address. */
  function LargeFrame(phys: nat): nat {
    RoundDown(phys % PHYS_LIMIT, 2)
  }

  lemma SameLargeFrame(x: nat, y: nat)
    requires x / 0x20_0000 == y / 0x20_0000
    ensures LargeFrame(x) == LargeFrame(y)
  {
    var k := x / 0x20_0000;
    var m := 0x8000_0000;
    assert x == 0x20_0000 * k + x % 0x20_0000 && y == 0x20_0000 * k + y % 0x20_0000;
    assert k == (k / m) * m + k % m;
    DivModUnique(x, PHYS_LIMIT, k / m, 0x20_0000 * (k % m) + x % 0x20_0000);
    DivModUnique(y, PHYS_LIMIT, k / m, 0x20_0000 * (k % m) + y % 0x20_0000);
    DivModUnique(0x20_0000 * (k % m) + x % 0x20_0000, 0x20_0000, k % m, x % 0x20_0000);
    DivModUnique(0x20_0000 * (k % m) + y % 0x20_0000, 0x20_0000, k % m, y % 0x20_0000);
  }

  lemma SameLargeBlock(x: nat, e: nat)
    requires e / 256 == x / 256
    ensures e / 0x20_0000 == x / 0x20_0000
  {
    var h := x / 256;
    assert x == 256 * h + x % 256 && e == 256 * h + e % 256;
    DivModUnique(x, 0x20_0000, h / 0x2000, 256 * (h % 0x2000) + x % 256);
    DivModUnique(e, 0x20_0000, h / 0x2000, 256 * (h % 0x2000) + e % 256);
  }

  function LargeFlags(phys: nat): nat {
    Or(TableFlags(phys), PT_PAGE_SIZE_MASK)
  }

  lemma LargeFlagsFit(phys: Word)
    ensures LargeFlags(phys) < 0x1_0000_0000_0000_0000
  {
    LargeFlagMeaning(phys);
    assert LargeFlags(phys) < 256 * (phys / 256) + 256;
    assert phys / 256 <= 0xff_ffff_ffff_ffff;
  }

  lemma LargeEntry(phys: nat, va: nat)
    ensures !Links(LargeFlags(phys))
    ensures EndOfWalk(2, LargeFlags(phys), va) == Mapped(LargeFrame(phys) + va % 0x20_0000, true, true)
  {
    var e := LargeFlags(phys);
    LargeFlagMeaning(phys);
    SevenFlags(e);
    SameLargeBlock(phys, e);
    SameLargeFrame(e, phys);
  }

  /** In m, the 2 MiB block of `virt` in tree c maps to the large frame of phys; all else is as in m0. */
  ghost predicate BlockMapped(m0: seq<Word>, m: seq<Word>, roots: set<nat>, c: nat, virt: nat, phys: nat) {
    forall r, va: nat {:trigger Translate(m, r, va)} :: r in roots ==>
      Translate(m, r, va) ==
        if r == c && PageNo(va) / 512 == PageNo(virt) / 512
        then Mapped(LargeFrame(phys) + va % 0x20_0000, true, true)
        else Translate(m0, r, va)
  }

  lemma InstalledBlock(m0: seq<Word>, m: seq<Word>, roots: set<nat>, c: nat, virt: nat, phys: nat)
    requires InstalledWalks(m0, m, roots, c, PathOf(virt), 2, LargeFlags(phys))
    ensures BlockMapped(m0, m, roots, c, virt, phys)
  {
    forall r, va: nat | r in roots
      ensures Translate(m, r, va) == if r == c && PageNo(va) / 512 == PageNo(virt) / 512
                                     then Mapped(LargeFrame(phys) + va % 0x20_0000, true, true)
                                     else Translate(m0, r, va)
    {
      LargeEntry(phys, va);
      PathIsNumber(virt, 3);
      PathLeadsTo(va, PathOf(virt)[..3]);
    }
  }

  // ----- which addresses

  /** In m, pages f..f+k of tree c map to frames from phys on; all else translates as in m0. */
  ghost predicate RangeMapped(m0: seq<Word>, m: seq<Word>, roots: set<nat>, c: nat, f: nat, k: nat, phys: nat) {
    forall r, va: nat {:trigger Translate(m, r, va)} :: r in roots ==>
      Translate(m, r, va) ==
        if r == c && f <= PageNo(va) < f + k
        then Mapped(PhysPage(phys + 4096 * (PageNo(va) - f)) + va % 4096, true, true)
        else Translate(m0, r, va)
  }

  lemma SamePath(virt: nat, va: nat)
    ensures PathOf(virt)[..4] <= PathOf(va) <==> PageNo(va) == PageNo(virt)
  {
    var v := PathOf(virt);
    assert v[..4] == v;
    PathIsNumber(virt, 4);
    PathLeadsTo(va, v);
  }

  lemma RangeMappedStep(m0: seq<Word>, m: seq<Word>, m2: seq<Word>, roots: set<nat>, c: nat, f: nat, k: nat, phys: nat,
                        virt: nat, physK: nat)
    requires RangeMapped(m0, m, roots, c, f, k, phys) && PageNo(virt) == f + k
    requires PhysPage(physK) == PhysPage(phys + 4096 * k)
    requires InstalledWalks(m, m2, roots, c, PathOf(virt), 3, TableFlags(physK))
    ensures RangeMapped(m0, m2, roots, c, f, k + 1, phys)
  {
    forall r, va: nat | r in roots
      ensures Translate(m2, r, va) ==
                if r == c && f <= PageNo(va) < f + k + 1
                then Mapped(PhysPage(phys + 4096 * (PageNo(va) - f)) + va % 4096, true, true)
                else Translate(m0, r, va)
    {
      SamePath(virt, va);
      PageEntry(physK, va);
      assert Translate(m2, r, va) == if r == c && PathOf(virt)[..4] <= PathOf(va)
                                     then EndOfWalk(1, TableFlags(physK), va) else Translate(m, r, va);
      assert Translate(m, r, va) == if r == c && f <= PageNo(va) < f + k
                                    then Mapped(PhysPage(phys + 4096 * (PageNo(va) - f)) + va % 4096, true, true)
                                    else Translate(m0, r, va);
    }
  }

  lemma RangeStarts(m0: seq<Word>, m: seq<Word>, roots: set<nat>, c: nat, virt: nat, phys: nat)
    requires InstalledWalks(m0, m, roots, c, PathOf(virt), 3, TableFlags(phys))
    ensures RangeMapped(m0, m, roots, c, PageNo(virt), 1, phys)
  {
    hide InstalledWalks;
    RangeMappedStep(m0, m0, m, roots, c, PageNo(virt), 0, phys, virt, phys);
  }

  /** In plain numbers: with a page-aligned frame, the addresses of one page translate to that frame
      and no other address of the tree translates differently. */
  lemma PageMeans(m0: seq<Word>, m: seq<Word>, roots: set<nat>, c: nat, virt: nat, phys: nat, va: nat)
    requires RangeMapped(m0, m, roots, c, PageNo(virt), 1, phys) && c in roots
    requires phys % 4096 == 0 && phys < 0x10_0000_0000_0000 && virt < VA_LIMIT && va < VA_LIMIT
    ensures Translate(m, c, va)
         == if va / 4096 == virt / 4096 then Mapped(phys + va % 4096, true, true) else Translate(m0, c, va)
  {
    assert PageNo(va) == va / 4096 && PageNo(virt) == virt / 4096;
    assert PhysPage(phys) == phys;
    var p := PageNo(va) - PageNo(virt);
    assert Translate(m, c, va)
        == if 0 <= p < 1 then Mapped(PhysPage(phys + 4096 * p) + va % 4096, true, true) else Translate(m0, c, va);
  }

  /** The same for a 2 MiB block. */
  lemma BlockMeans(m0: seq<Word>, m: seq<Word>, roots: set<nat>, c: nat, virt: nat, phys: nat, va: nat)
    requires BlockMapped(m0, m, roots, c, virt, phys) && c in roots
    requires phys % 0x20_0000 == 0 && phys < 0x10_0000_0000_0000 && virt < VA_LIMIT && va < VA_LIMIT
    ensures Translate(m, c, va)
         == if va / 0x20_0000 == virt / 0x20_0000
            then Mapped(phys + va % 0x20_0000, true, true) else Translate(m0, c, va)
  {
    assert PageNo(va) == va / 4096 && PageNo(virt) == virt / 4096;
    assert va / 4096 / 512 == va / 0x20_0000 && virt / 4096 / 512 == virt / 0x20_0000;
    assert LargeFrame(phys) == phys;
    assert Translate(m, c, va) == if PageNo(va) / 512 == PageNo(virt) / 512
                                  then Mapped(LargeFrame(phys) + va % 0x20_0000, true, true)
                                  else Translate(m0, c, va);
  }

  // ----- which tables

  /** The table at path q translates some of the pages f..f+k. */
  predicate Covered(q: Path, f: nat, k: nat)
    requires |q| <= 4
  {
    k > 0 && f / Pow512(4 - |q|) <= Num(q) <= (f + k - 1) / Pow512(4 - |q|)
  }

  ghost predicate RangeTables(m0: seq<Word>, m: seq<Word>, roots: set<nat>, c: nat, f: nat, k: nat) {
    forall r, q {:trigger TableAt(m, r, q)} {:trigger TableAt(m0, r, q)} :: r in roots && ValidPath(q) ==>
      if r == c && Covered(q, f, k)
      then TableAt(m, r, q).Some? && (TableAt(m0, r, q).Some? ==> TableAt(m, r, q) == TableAt(m0, r, q))
      else TableAt(m, r, q) == TableAt(m0, r, q)
  }

  lemma DivStep(x: nat, p: nat)
    requires p > 0
    ensures if (x + 1) % p == 0 then (x + 1) / p == x / p + 1 else (x + 1) / p == x / p
  {
    var a, b := x / p, x % p;
    assert x == a * p + b;
    if b == p - 1 {
      assert x + 1 == (a + 1) * p;
      DivModUnique(x + 1, p, a + 1, 0);
    } else {
      DivModUnique(x + 1, p, a, b + 1);
    }
  }

  lemma {:induction false} DivMonotone(x: nat, y: nat, p: nat)
    requires p > 0 && x <= y
    ensures x / p <= y / p
    decreases y
  {
    if x < y {
      DivMonotone(x, y - 1, p);
      DivStep(y - 1, p);
    }
  }

  lemma CoveredStep(q: Path, f: nat, k: nat, va: nat)
    requires ValidPath(q) && PageNo(va) == f + k
    ensures Covered(q, f, k + 1) <==> Covered(q, f, k) || q <= PathOf(va)
  {
    var p := Pow512(4 - |q|);
    PathLeadsTo(va, q);
    if k > 0 {
      DivStep(f + k - 1, p);
      DivMonotone(f, f + k - 1, p);
    }
  }

  lemma RangeTablesStep(m0: seq<Word>, m: seq<Word>, m2: seq<Word>, roots: set<nat>, c: nat, f: nat, k: nat, virt: nat)
    requires RangeTables(m0, m, roots, c, f, k) && PageNo(virt) == f + k
    requires InstalledTables(m, m2, roots, c, PathOf(virt), 3)
    ensures RangeTables(m0, m2, roots, c, f, k + 1)
  {
    var v := PathOf(virt);
    forall r, q | r in roots && ValidPath(q)
      ensures if r == c && Covered(q, f, k + 1)
              then TableAt(m2, r, q).Some? && (TableAt(m0, r, q).Some? ==> TableAt(m2, r, q) == TableAt(m0, r, q))
              else TableAt(m2, r, q) == TableAt(m0, r, q)
    {
      CoveredStep(q, f, k, virt);
      assert q <= v[..3] <==> q <= v;
      assert if r == c && Covered(q, f, k)
             then TableAt(m, r, q).Some? && (TableAt(m0, r, q).Some? ==> TableAt(m, r, q) == TableAt(m0, r, q))
             else TableAt(m, r, q) == TableAt(m0, r, q);
      assert if r == c && q <= v[..3]
             then TableAt(m2, r, q).Some? && (TableAt(m, r, q).Some? ==> TableAt(m2, r, q) == TableAt(m, r, q))
             else TableAt(m2, r, q) == TableAt(m, r, q);
    }
  }

  // ----- how many new tables

  /** 1 if installing page f+k after pages f..f+k adds the table at depth j of its path. */
  function NewAt(m0: seq<Word>, c: nat, f: nat, k: nat, j: nat): nat
    requires 1 <= j <= 3
  {
    if TableAt(m0, c, PathOf(4096 * (f + k))[..j]).None? && (k == 0 || (f + k) % Pow512(4 - j) == 0) then 1 else 0
  }

  /** Tables added by installing n consecutive pages from page f on. */
  function NewTables(m0: seq<Word>, c: nat, f: nat, n: nat): nat {
    if n == 0 then 0
    else NewTables(m0, c, f, n - 1) + NewAt(m0, c, f, n - 1, 1) + NewAt(m0, c, f, n - 1, 2) + NewAt(m0, c, f, n - 1, 3)
  }

  lemma {:induction false} NewTablesGrows(m0: seq<Word>, c: nat, f: nat, k: nat, n: nat)
    requires k <= n
    ensures NewTables(m0, c, f, k) <= NewTables(m0, c, f, n)
    decreases n
  {
    if k < n { NewTablesGrows(m0, c, f, k, n - 1); }
  }

  /** The path depends on the page number only. */
  lemma PathFromNumber(va: nat)
    ensures PathOf(4096 * PageNo(va)) == PathOf(va)
  {
    var p := PageNo(va);
    DivModUnique(4096 * p, 4096, p, 0);
    DivModUnique(p, PAGES, 0, p);
    SamePath(va, 4096 * p);
    assert PathOf(va)[..4] == PathOf(va);
  }

  /** The table at depth j of the next page's path was needed before unless a new block starts. */
  lemma CoveredNext(f: nat, k: nat, virt: nat, j: nat)
    requires PageNo(virt) == f + k && 1 <= j <= 3
    ensures Covered(PathOf(virt)[..j], f, k) <==> !(k == 0 || (f + k) % Pow512(4 - j) == 0)
  {
    var p := Pow512(4 - j);
    PathIsNumber(virt, j);
    if k > 0 {
      DivStep(f + k - 1, p);
      DivMonotone(f, f + k, p);
    }
  }

  /** A table for the next page is missing if and only if it was at the start and covers no
      earlier page of the range. */
  lemma MissingAt(m0: seq<Word>, m: seq<Word>, roots: set<nat>, c: nat, f: nat, k: nat, virt: nat, j: nat)
    requires RangeTables(m0, m, roots, c, f, k) && PageNo(virt) == f + k && c in roots && 1 <= j <= 3
    ensures TableAt(m, c, PathOf(virt)[..j]).None?
       <==> TableAt(m0, c, PathOf(virt)[..j]).None? && !Covered(PathOf(virt)[..j], f, k)
    ensures (if TableAt(m, c, PathOf(virt)[..j]).None? then 1 else 0) == NewAt(m0, c, f, k, j)
  {
    PathFromNumber(virt);
    CoveredNext(f, k, virt, j);
    assert ValidPath(PathOf(virt)[..j]);
  }

  lemma MissingIsNew(m0: seq<Word>, m: seq<Word>, roots: set<nat>, c: nat, f: nat, k: nat, virt: nat)
    requires RangeTables(m0, m, roots, c, f, k) && PageNo(virt) == f + k && c in roots
    ensures NewTables(m0, c, f, k + 1) == NewTables(m0, c, f, k) + Missing(m, c, PathOf(virt), 3)
  {
    var v := PathOf(virt);
    MissingAt(m0, m, roots, c, f, k, virt, 1);
    MissingAt(m0, m, roots, c, f, k, virt, 2);
    MissingAt(m0, m, roots, c, f, k, virt, 3);
    assert Missing(m, c, v, 1) == if TableAt(m, c, v[..1]).None? then 1 else 0;
    assert Missing(m, c, v, 2) == Missing(m, c, v, 1) + if TableAt(m, c, v[..2]).None? then 1 else 0;
    assert Missing(m, c, v, 3) == Missing(m, c, v, 2) + if TableAt(m, c, v[..3]).None? then 1 else 0;
  }

  function Ceil(n: nat, p: nat): nat
    requires p > 0
  {
    (n + p - 1) / p
  }

  /** Tables of a fresh tree that maps n pages from address 0 on, its root not counted. */
  function TablesFor(n: nat): nat {
    Ceil(n, 512) + Ceil(n, 0x4_0000) + Ceil(n, 0x800_0000)
  }

  ghost predicate EmptyTree(m: seq<Word>, c: nat) {
    forall q {:trigger TableAt(m, c, q)} :: ValidPath(q) ==> TableAt(m, c, q) == if q == [] then Some(c) else None
  }

  lemma CeilStep(n: nat, p: nat)
    requires p > 0
    ensures Ceil(n + 1, p) == Ceil(n, p) + if n % p == 0 then 1 else 0
  {
    DivStep(n + p - 1, p);
    assert n == (n / p) * p + n % p;
    assert n + p == (n / p + 1) * p + n % p;
    DivModUnique(n + p, p, n / p + 1, n % p);
  }

  lemma NewAtEmpty(m: seq<Word>, c: nat, k: nat, j: nat)
    requires EmptyTree(m, c) && 1 <= j <= 3
    ensures NewAt(m, c, 0, k, j) == Starts(k, Pow512(4 - j))
  {
    assert ValidPath(PathOf(4096 * (0 + k))[..j]);
  }

  /** 1 if page k starts a block of p pages. */
  function Starts(k: nat, p: nat): nat
    requires p > 0
  {
    if k % p == 0 then 1 else 0
  }

  lemma TablesForStep(n: nat)
    ensures TablesFor(n + 1) == TablesFor(n) + Starts(n, Pow512(3)) + Starts(n, Pow512(2)) + Starts(n, Pow512(1))
  {
    CeilStep(n, 512);
    CeilStep(n, 0x4_0000);
    CeilStep(n, 0x800_0000);
  }

  lemma TablesForNone()
    ensures TablesFor(0) == 0
  {}

  lemma NewTablesStep(m: seq<Word>, c: nat, k: nat)
    requires EmptyTree(m, c)
    ensures NewTables(m, c, 0, k + 1)
         == NewTables(m, c, 0, k) + Starts(k, Pow512(3)) + Starts(k, Pow512(2)) + Starts(k, Pow512(1))
  {
    NewAtEmpty(m, c, k, 1);
    NewAtEmpty(m, c, k, 2);
    NewAtEmpty(m, c, k, 3);
  }

  /** Mapping n pages of a fresh tree takes one table per started block of 512, 512^2 and 512^3. */
  lemma {:induction false} FreshTreeCount(m: seq<Word>, c: nat, n: nat)
    requires EmptyTree(m, c)
    ensures NewTables(m, c, 0, n) == TablesFor(n)
  {
    if n == 0 {
      assert NewTables(m, c, 0, 0) == TablesFor(0) by { TablesForNone(); }
    } else {
      var k := n - 1;
      FreshTreeCount(m, c, k);
      assert NewTables(m, c, 0, k + 1) == TablesFor(k + 1) by {
        NewTablesStep(m, c, k);
        TablesForStep(k);
      }
    }
  }

  // ----- the rest of memory, and large pages

  /** Word i lies in some table of tree c. */
  ghost predicate InTree(m: seq<Word>, c: nat, i: nat) {
    exists q {:trigger TableAt(m, c, q)} :: ValidPath(q) && TableAt(m, c, q).Some? && InPage(TableAt(m, c, q).value, i)
  }

  ghost predicate ChangedInTree(m0: seq<Word>, m: seq<Word>, c: nat) {
    |m| == |m0| && forall i :: 0 <= i < |m| && m[i] != m0[i] ==> InTree(m, c, i)
  }

  lemma ChangedInTreeStep(m0: seq<Word>, m: seq<Word>, m2: seq<Word>, roots: set<nat>, c: nat, v: Path)
    requires FullPath(v) && c in roots && ChangedInTree(m0, m, c)
    requires InstalledTables(m, m2, roots, c, v, 3) && ChangedOnPath(m, m2, c, v, 3)
    ensures ChangedInTree(m0, m2, c)
  {
    forall i | 0 <= i < |m2| && m2[i] != m0[i] ensures InTree(m2, c, i) {
      if m2[i] != m[i] {
        assert OnPath(m2, c, v, 3, i);
        var k :| 0 <= k <= 3 && TableAt(m2, c, v[..k]).Some? && InPage(TableAt(m2, c, v[..k]).value, i);
        PrefixValid(v, k);
      } else {
        assert InTree(m, c, i);
        var q :| ValidPath(q) && TableAt(m, c, q).Some? && InPage(TableAt(m, c, q).value, i);
        assert TableAt(m2, c, q) == TableAt(m, c, q);
      }
    }
  }

  /** No large page is in the way of 4 KiB page p. */
  ghost predicate PageClear(m: seq<Word>, c: nat, p: nat) {
    PathClear(m, c, PathOf(4096 * p), 3)
  }

  lemma ClearStays(m0: seq<Word>, m: seq<Word>, c: nat, virt: nat, p: nat)
    requires p == PageNo(virt) && PageClear(m0, c, p) && NoNewLarge(m0, m, c, [])
    ensures PathClear(m, c, PathOf(virt), 3)
  {
    var v := PathOf(virt);
    PathFromNumber(virt);
    assert PathClear(m0, c, v, 3);
    forall d | 0 <= d < 3 ensures !LargeAt(m, c, v[..d], v[d]) {
      PrefixValid(v, d);
      assert v[..d] + [v[d]] != [];
    }
  }

  lemma NoNewLargeStep(m0: seq<Word>, m: seq<Word>, m2: seq<Word>, c: nat, v: Path)
    requires |v| == 4 && NoNewLarge(m0, m, c, []) && NoNewLarge(m, m2, c, v)
    ensures NoNewLarge(m0, m2, c, [])
  {
    forall q, i: nat | ValidPath(q) && |q| < 3 && i < 512 && LargeAt(m2, c, q, i) ensures LargeAt(m0, c, q, i) {
      assert q + [i] != v && q + [i] != [];
    }
  }

  // ----- k of the pages installed

  /** What holds after k rounds of `install_pages` that started with memory m0 and list free0. */
  ghost predicate Progress(m0: seq<Word>, m: seq<Word>, roots: set<nat>, c: nat, f: nat, k: nat, phys: nat,
                           free0: seq<nat>, free: seq<nat>) {
    && RangeMapped(m0, m, roots, c, f, k, phys) && RangeTables(m0, m, roots, c, f, k)
    && ChangedInTree(m0, m, c) && NoNewLarge(m0, m, c, [])
    && NewTables(m0, c, f, k) <= |free0| && free == free0[NewTables(m0, c, f, k)..]
  }

  lemma ProgressStart(m: seq<Word>, roots: set<nat>, c: nat, f: nat, phys: nat, free: seq<nat>)
    ensures Progress(m, m, roots, c, f, 0, phys, free, free)
  {}

  lemma ProgressReady(m0: seq<Word>, m: seq<Word>, roots: set<nat>, c: nat, f: nat, k: nat, n: nat, phys: nat,
                      free0: seq<nat>, free: seq<nat>, virt: nat)
    requires Progress(m0, m, roots, c, f, k, phys, free0, free) && k < n && NewTables(m0, c, f, n) <= |free0|
    requires PageNo(virt) == f + k && PageClear(m0, c, f + k) && c in roots
    ensures PathClear(m, c, PathOf(virt), 3) && Missing(m, c, PathOf(virt), 3) <= |free|
    ensures NewTables(m0, c, f, k + 1) == NewTables(m0, c, f, k) + Missing(m, c, PathOf(virt), 3) <= |free0|
  {
    hide NewTables, PageClear, PathClear;
    ClearStays(m0, m, c, virt, f + k);
    MissingIsNew(m0, m, roots, c, f, k, virt);
    NewTablesGrows(m0, c, f, k + 1, n);
  }

  lemma ProgressStep(m0: seq<Word>, m: seq<Word>, m2: seq<Word>, roots: set<nat>, c: nat, f: nat, k: nat, phys: nat,
                     free0: seq<nat>, free: seq<nat>, virt: nat, physK: nat, taken: nat)
    requires Progress(m0, m, roots, c, f, k, phys, free0, free) && c in roots
    requires PageNo(virt) == f + k && PhysPage(physK) == PhysPage(phys + 4096 * k)
    requires InstalledWalks(m, m2, roots, c, PathOf(virt), 3, TableFlags(physK))
    requires InstalledTables(m, m2, roots, c, PathOf(virt), 3) && ChangedOnPath(m, m2, c, PathOf(virt), 3)
    requires NoNewLarge(m, m2, c, PathOf(virt))
    requires NewTables(m0, c, f, k + 1) == NewTables(m0, c, f, k) + taken <= |free0|
    ensures Progress(m0, m2, roots, c, f, k + 1, phys, free0, free[taken..])
  {
    RangeMappedStep(m0, m, m2, roots, c, f, k, phys, virt, physK);
    RangeTablesStep(m0, m, m2, roots, c, f, k, virt);
    ChangedInTreeStep(m0, m, m2, roots, c, PathOf(virt));
    NoNewLargeStep(m0, m, m2, c, PathOf(virt));
  }
}
