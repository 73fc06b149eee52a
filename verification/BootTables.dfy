/** The static 2 MiB identity tables of cstart.S, and what it means for a tree to be an
    identity map of the first n pages. */
module BootTables {
  import opened Bits
  import opened PageTable
  import opened PagePaths
  import opened HeapSpec
  import opened Mapping
  import opened Values

  const FOUR_GIB_PAGES := 0x10_0000

  /** Tree `root` maps the first n pages to themselves, writable and for users, and nothing else. */
  ghost predicate Identity(m: seq<Word>, root: nat, n: nat) {
    forall va: nat {:trigger Translate(m, root, va)} ::
      Translate(m, root, va) == if PageNo(va) < n then Mapped(va % VA_LIMIT, true, true) else Fault
  }

  /** Below 2^48: the first n pages translate to themselves and nothing else translates. */
  lemma IdentityMeans(m: seq<Word>, root: nat, n: nat, va: nat)
    requires Identity(m, root, n) && va < 0x1_0000_0000_0000
    ensures Translate(m, root, va) == if va < 4096 * n then Mapped(va, true, true) else Fault
  {
    assert Translate(m, root, va) == if PageNo(va) < n then Mapped(va % VA_LIMIT, true, true) else Fault;
    assert PageNo(va) == va / 4096 && va % VA_LIMIT == va;
  }

  lemma IdentityMeansAll(m: seq<Word>, root: nat, n: nat)
    requires Identity(m, root, n)
    ensures forall va: nat :: va < 0x1_0000_0000_0000 ==>
              Translate(m, root, va) == if va < 4096 * n then Mapped(va, true, true) else Fault
  {
    forall va: nat | va < 0x1_0000_0000_0000
      ensures Translate(m, root, va) == if va < 4096 * n then Mapped(va, true, true) else Fault
    {
      IdentityMeans(m, root, n, va);
    }
  }

  lemma TablesForMeans(n: nat)
    ensures TablesFor(n) == (n + 511) / 512 + (n + 0x3_ffff) / 0x4_0000 + (n + 0x7ff_ffff) / 0x800_0000
  {}

  lemma LinearAddress(va: nat)
    ensures va % VA_LIMIT == 4096 * PageNo(va) + va % 4096
  {
    var n := va / 4096;
    var h := n / PAGES;
    assert n == h * PAGES + n % PAGES;
    DivModUnique(va, VA_LIMIT, h, 4096 * (n % PAGES) + va % 4096);
  }

  /** Two identity maps agree on every address the smaller one maps. */
  lemma IdentitiesAgree(m: seq<Word>, a: nat, n: nat, b: nat, k: nat)
    requires Identity(m, a, n) && Identity(m, b, k) && n <= k
    ensures AgreesWith(m, a, b)
  {}

  /** A fresh tree after `install_pages` from address 0 to address 0 is an identity map. */
  lemma RangeIsIdentity(m0: seq<Word>, m: seq<Word>, roots: set<nat>, c: nat, n: nat)
    requires RangeMapped(m0, m, roots, c, 0, n, 0) && c in roots
    requires forall va: nat :: Translate(m0, c, va) == Fault
    ensures Identity(m, c, n)
  {
    forall va: nat ensures Translate(m, c, va) == if PageNo(va) < n then Mapped(va % VA_LIMIT, true, true) else Fault {
      LinearAddress(va);
      PageFrame(PageNo(va));
      assert 0 + 4096 * (PageNo(va) - 0) == 4096 * PageNo(va);
    }
  }

  lemma PageFrame(p: nat)
    requires p < PAGES
    ensures PhysPage(4096 * p) == 4096 * p
  {
    SmallMod(4096 * p, PHYS_LIMIT);
    DivModUnique(4096 * p, 4096, p, 0);
  }

  /** Every address mapped by tree a is mapped alike by tree b. */
  ghost predicate AgreesWith(m: seq<Word>, a: nat, b: nat) {
    forall va: nat {:trigger Translate(m, a, va)} ::
      Translate(m, a, va).Mapped? ==> Translate(m, a, va) == Translate(m, b, va)
  }

  /** An empty tree can take n pages and needs TablesFor(n) tables for them. */
  lemma FreshReady(m: seq<Word>, c: nat, n: nat)
    requires EmptyTree(m, c) && ZeroPage(m, c)
    ensures forall p :: 0 <= p < n ==> PageClear(m, c, p)
    ensures NewTables(m, c, PageNo(0), n) == TablesFor(n)
  {
    hide NewTables, TablesFor, EmptyTree, ZeroPage, PathClear;
    assert PageNo(0) == 0;
    FreshTreeCount(m, c, n);
    forall p | 0 <= p < n ensures PageClear(m, c, p) {
      EmptyIsClear(m, c, PathOf(4096 * p));
    }
  }

  lemma EmptyIsClear(m: seq<Word>, c: nat, v: Path)
    requires EmptyTree(m, c) && ZeroPage(m, c) && FullPath(v)
    ensures PathClear(m, c, v, 3)
  {
    forall d | 0 <= d < 3 ensures !LargeAt(m, c, v[..d], v[d]) {
      PrefixValid(v, d);
      assert d == 0 ==> v[..d] == [];
      assert Entry(m, c, v[d]) == 0;
    }
  }

  /** What the steps of `setup_mmu` add up to. */
  lemma SetupResult(m0: seq<Word>, m1: seq<Word>, m2: seq<Word>, others: set<nat>, c: nat, n: nat, before: nat)
    requires c !in others && EmptyTree(m1, c) && ZeroPage(m1, c)
    requires SameWalksOf(m0, m1, others) && SameOutside(m0, m1, c)
    requires RangeMapped(m1, m2, others + {c}, c, PageNo(0), n, 0) && ChangedInTree(m1, m2, c)
    requires RangeTables(m1, m2, others + {c}, c, PageNo(0), n)
    ensures Identity(m2, c, n) && SameWalksOf(m0, m2, others) && ChangedInTree(m0, m2, c)
    ensures before in others && Identity(m0, before, FOUR_GIB_PAGES) && n <= FOUR_GIB_PAGES ==>
              AgreesWith(m2, c, before)
  {
    hide Identity, SameWalksOf, RangeMapped, RangeTables, ChangedInTree, EmptyTree, ZeroPage, SameOutside, AgreesWith;
    assert PageNo(0) == 0;
    assert Identity(m2, c, n) by { EmptyBecomesIdentity(m1, m2, others + {c}, c, n); }
    SetupWalks(m0, m1, m2, others, c, n);
    SetupChanges(m0, m1, m2, others + {c}, c, n);
    if before in others && Identity(m0, before, FOUR_GIB_PAGES) && n <= FOUR_GIB_PAGES {
      IdentityKept(m0, m2, others, before, FOUR_GIB_PAGES);
      IdentitiesAgree(m2, c, n, before, FOUR_GIB_PAGES);
    }
  }

  lemma EmptyBecomesIdentity(m1: seq<Word>, m2: seq<Word>, roots: set<nat>, c: nat, n: nat)
    requires c in roots && ZeroPage(m1, c) && RangeMapped(m1, m2, roots, c, 0, n, 0)
    ensures Identity(m2, c, n)
  {
    hide RangeMapped, Identity;
    forall va: nat ensures Translate(m1, c, va) == Fault { EmptyTableFaults(m1, c, 4, va); }
    RangeIsIdentity(m1, m2, roots, c, n);
  }

  lemma IdentityKept(m: seq<Word>, m2: seq<Word>, roots: set<nat>, r: nat, n: nat)
    requires SameWalksOf(m, m2, roots) && r in roots && Identity(m, r, n)
    ensures Identity(m2, r, n)
  {}

  lemma SetupWalks(m0: seq<Word>, m1: seq<Word>, m2: seq<Word>, others: set<nat>, c: nat, n: nat)
    requires c !in others && SameWalksOf(m0, m1, others) && RangeMapped(m1, m2, others + {c}, c, 0, n, 0)
    ensures SameWalksOf(m0, m2, others)
  {}

  lemma SetupChanges(m0: seq<Word>, m1: seq<Word>, m2: seq<Word>, roots: set<nat>, c: nat, n: nat)
    requires c in roots && EmptyTree(m1, c) && SameOutside(m0, m1, c) && ChangedInTree(m1, m2, c)
    requires RangeTables(m1, m2, roots, c, 0, n)
    ensures ChangedInTree(m0, m2, c)
  {
    assert ValidPath([]);
    assert TableAt(m2, c, []) == Some(c);
    forall i | 0 <= i < |m2| && m2[i] != m0[i] ensures InTree(m2, c, i) {
      if InPage(c, i) {
        assert TableAt(m2, c, []).Some?;
      } else {
        assert m1[i] == m0[i];
      }
    }
  }

  // ----- the image

  /** The boot tables at b: four level-2 tables, then the level-3 table, then the level-4 root. */
  ghost predicate BootImage(m: seq<Word>, b: nat) {
    && b % 4096 == 0 && 0 < b && b + 6 * 4096 <= 8 * |m| <= PHYS_LIMIT
    && (forall j: nat, i: nat {:trigger Entry(m, Level2(b, j), i)} :: j < 4 && i < 512 ==>
          Entry(m, Level2(b, j), i) == LargeWord(512 * j + i))
    && (forall j: nat {:trigger Entry(m, Level3(b), j)} :: j < 512 ==>
          Entry(m, Level3(b), j) == if j < 4 then Level2(b, j) + 7 else 0)
    && (forall j: nat {:trigger Entry(m, Root(b), j)} :: j < 512 ==>
          Entry(m, Root(b), j) == if j == 0 then Level3(b) + 7 else 0)
  }

  function Level2(b: nat, j: nat): nat { b + 4096 * j }
  function Level3(b: nat): nat { b + 4 * 4096 }
  function Root(b: nat): nat { b + 5 * 4096 }

  /** Entry i of the level-2 tables: 2 MiB frame i with present, writable, user, accessed,
      dirty, page-size and global set. */
  function LargeWord(i: nat): nat { 0x1e7 + i * 0x20_0000 }

  lemma LargeWordMeaning(i: nat, va: nat)
    requires i < 2048
    ensures Present(LargeWord(i)) && Large(LargeWord(i)) && !Links(LargeWord(i))
    ensures Leaf(2, LargeWord(i), va) == Mapped(i * 0x20_0000 + va % 0x20_0000, true, true)
  {
    var e := LargeWord(i);
    DivModUnique(e, 8, 0x3c + i * 0x4_0000, 7);
    SevenFlags(e);
    DivModUnique(e, 128, 3 + i * 0x4000, 0x67);
    DivModUnique(3 + i * 0x4000, 2, 1 + i * 0x2000, 1);
    SmallMod(e, PHYS_LIMIT);
    DivModUnique(e, 0x20_0000, i, 0x1e7);
  }

  lemma LinkAt(m: seq<Word>, b: nat, k: nat)
    requires BootImage(m, b) && k < 6
    ensures Links(b + 4096 * k + 7) && Frame(b + 4096 * k + 7) == b + 4096 * k && (b + 4096 * k + 7) % 8 == 7
  {
    DivModUnique(b + 4096 * k, 4096, b / 4096 + k, 0);
    LinkWord(b + 4096 * k);
  }

  /** The words that link the boot tables point to them and allow everything. */
  lemma Level2Link(m: seq<Word>, b: nat, j: nat)
    requires BootImage(m, b) && j < 4
    ensures Links(Level2(b, j) + 7) && Frame(Level2(b, j) + 7) == Level2(b, j) && (Level2(b, j) + 7) % 8 == 7
  {
    hide Links, Frame;
    LinkAt(m, b, j);
  }

  lemma Level3Link(m: seq<Word>, b: nat)
    requires BootImage(m, b)
    ensures Links(Level3(b) + 7) && Frame(Level3(b) + 7) == Level3(b) && (Level3(b) + 7) % 8 == 7
  {
    hide Links, Frame;
    LinkAt(m, b, 4);
  }

  /** The tables of the boot tree. */
  function BootTable(b: nat, q: Path): Option<nat> {
    if q == [] then Some(Root(b))
    else if q == [0] then Some(Level3(b))
    else if |q| == 2 && q[0] == 0 && q[1] < 4 then Some(Level2(b, q[1]))
    else None
  }

  lemma TablesOneDown(m: seq<Word>, b: nat, i: nat)
    requires BootImage(m, b) && i < 512
    ensures TableAt(m, Root(b), [i]) == if i == 0 then Some(Level3(b)) else None
  {
    assert [i][..0] == [];
    assert Entry(m, Root(b), i) == if i == 0 then Level3(b) + 7 else 0;
    Level3Link(m, b);
  }

  lemma TablesTwoDown(m: seq<Word>, b: nat, i: nat, j: nat)
    requires BootImage(m, b) && i < 512 && j < 512
    ensures TableAt(m, Root(b), [i, j]) == if i == 0 && j < 4 then Some(Level2(b, j)) else None
  {
    assert [i, j][..1] == [i];
    TablesOneDown(m, b, i);
    assert Entry(m, Level3(b), j) == if j < 4 then Level2(b, j) + 7 else 0;
    if j < 4 { Level2Link(m, b, j); }
  }

  lemma TablesThreeDown(m: seq<Word>, b: nat, i: nat, j: nat, k: nat)
    requires BootImage(m, b) && i < 512 && j < 512 && k < 512
    ensures TableAt(m, Root(b), [i, j, k]).None?
  {
    assert [i, j, k][..2] == [i, j];
    TablesTwoDown(m, b, i, j);
    if i == 0 && j < 4 {
      assert Entry(m, Level2(b, j), k) == LargeWord(512 * j + k);
      LargeWordMeaning(512 * j + k, 0);
    }
  }

  lemma BootTablesAre(m: seq<Word>, b: nat, q: Path)
    requires BootImage(m, b) && ValidPath(q)
    ensures TableAt(m, Root(b), q) == BootTable(b, q)
  {
    if |q| == 1 {
      assert q == [q[0]];
      TablesOneDown(m, b, q[0]);
    } else if |q| == 2 {
      assert q == [q[0], q[1]];
      TablesTwoDown(m, b, q[0], q[1]);
    } else if |q| == 3 {
      assert q == [q[0], q[1], q[2]];
      TablesThreeDown(m, b, q[0], q[1], q[2]);
    }
  }

  lemma BootUnique(b: nat, p: Path, q: Path)
    requires b % 4096 == 0 && BootTable(b, p).Some? && BootTable(b, p) == BootTable(b, q)
    ensures p == q
  {
    if |p| == 2 && |q| == 2 {
      assert p == [p[0], p[1]] && q == [q[0], q[1]];
    }
  }

  lemma BootPermissive(m: seq<Word>, b: nat, q: Path, i: nat)
    requires BootImage(m, b) && ValidPath(q) && i < 512 && BootTable(b, q).Some?
    requires Links(Entry(m, BootTable(b, q).value, i))
    ensures Entry(m, BootTable(b, q).value, i) % 8 == 7
  {
    assert !Links(0);
    hide LargeWord, Links, Frame, Level2, Level3, Root;
    if q == [] {
      Level3Link(m, b);
    } else if q == [0] {
      if i < 4 { Level2Link(m, b, i); }
    } else {
      assert Entry(m, Level2(b, q[1]), i) == LargeWord(512 * q[1] + i);
      LargeWordMeaning(512 * q[1] + i, 0);
      assert false;
    }
  }

  /** The boot tables form one well-formed tree. */
  lemma BootTreeOk(m: seq<Word>, b: nat)
    requires BootImage(m, b)
    ensures TreesOk(m, {Root(b)})
  {
    hide Links, LargeWord;
    var roots := {Root(b)};
    forall r, q | r in roots && ValidPath(q) && TableAt(m, r, q).Some? ensures PageAt(m, TableAt(m, r, q).value) {
      BootTablesAre(m, b, q);
    }
    forall r, q, s, p | r in roots && s in roots && ValidPath(q) && ValidPath(p)
                        && TableAt(m, r, q).Some? && TableAt(m, r, q) == TableAt(m, s, p)
      ensures r == s && q == p
    {
      BootTablesAre(m, b, q);
      BootTablesAre(m, b, p);
      BootUnique(b, q, p);
    }
    forall r, q, i: nat | r in roots && ValidPath(q) && |q| < 3 && i < 512 && TableAt(m, r, q).Some?
                          && Links(Entry(m, TableAt(m, r, q).value, i))
      ensures Entry(m, TableAt(m, r, q).value, i) % 8 == 7
    {
      BootTablesAre(m, b, q);
      BootPermissive(m, b, q, i);
    }
  }

  // ----- what they translate

  lemma LowPages(va: nat)
    ensures PageNo(va) < FOUR_GIB_PAGES <==> Idx(va, 4) == 0 && Idx(va, 3) < 4
    ensures Idx(va, 4) == 0 ==> PageNo(va) / 512 == 512 * Idx(va, 3) + Idx(va, 2)
  {
    var v := PathOf(va);
    NumStep(v, 0);
    NumStep(v, 1);
    NumStep(v, 2);
    NumStep(v, 3);
    PathIsNumber(va, 2);
    PathIsNumber(va, 3);
    assert Num(v[..2]) == Idx(va, 4) * 512 + Idx(va, 3);
    assert PageNo(va) < 0x10_0000 <==> PageNo(va) / 0x4_0000 < 4;
  }

  lemma BootWalk(m: seq<Word>, b: nat, va: nat)
    requires BootImage(m, b)
    ensures Translate(m, Root(b), va)
         == if PageNo(va) < FOUR_GIB_PAGES
            then Mapped(PageNo(va) / 512 * 0x20_0000 + va % 0x20_0000, true, true) else Fault
  {
    hide PageNo, Idx, LargeWord, Level2, Level3, Root;
    LowPages(va);
    var j := Idx(va, 3);
    assert Entry(m, Root(b), Idx(va, 4)) == if Idx(va, 4) == 0 then Level3(b) + 7 else 0;
    if Idx(va, 4) == 0 {
      Level3Link(m, b);
      WalkStep(m, Root(b), 4, va);
      assert Entry(m, Level3(b), j) == if j < 4 then Level2(b, j) + 7 else 0;
      if j < 4 {
        Level2Link(m, b, j);
        WalkStep(m, Level3(b), 3, va);
        BlockWalk(m, b, j, va);
      }
    }
  }

  lemma BlockWalk(m: seq<Word>, b: nat, j: nat, va: nat)
    requires BootImage(m, b) && j < 4
    ensures Walk(m, Level2(b, j), 2, va)
         == Mapped((512 * j + Idx(va, 2)) * 0x20_0000 + va % 0x20_0000, true, true)
  {
    hide Idx, LargeWord, Level2;
    var i := Idx(va, 2);
    assert Entry(m, Level2(b, j), i) == LargeWord(512 * j + i);
    LargeWordMeaning(512 * j + i, va);
  }

  lemma BlockAddress(va: nat)
    ensures PageNo(va) / 512 * 0x20_0000 + va % 0x20_0000 == va % VA_LIMIT
  {
    LinearAddress(va);
    var p := PageNo(va);
    var n := va / 4096;
    assert p % 512 == n % 512 by {
      assert n == n / PAGES * PAGES + p;
      assert n / PAGES * PAGES == 512 * (n / PAGES * 0x800_0000);
      DivModUnique(n, 512, n / PAGES * 0x800_0000 + p / 512, p % 512);
    }
    assert n == 512 * (n / 512) + n % 512;
    DivModUnique(va, 0x20_0000, n / 512, 4096 * (n % 512) + va % 4096);
  }

  /** The boot tables map the first 4 GiB to themselves and nothing else. */
  lemma BootIsIdentity(m: seq<Word>, b: nat)
    requires BootImage(m, b)
    ensures Identity(m, Root(b), FOUR_GIB_PAGES)
  {
    forall va: nat
      ensures Translate(m, Root(b), va)
           == if PageNo(va) < FOUR_GIB_PAGES then Mapped(va % VA_LIMIT, true, true) else Fault
    {
      BootWalk(m, b, va);
      BlockAddress(va);
    }
  }
}
