/** The page allocator and the page-table builder of heap.c, working in place on the machine's
    physical memory. Pointers are physical addresses: the kernel runs identity mapped. */
module Heap {
  import opened Bits
  import opened PageTable
  import opened PagePaths
  import opened HeapSpec
  import opened Mapping
  import opened BootTables
  import opened Boundaries
  import opened PageRange
  import opened Values

  method IsPresent(e: Word) returns (b: bool)
    ensures b == Present(e)
  {
    MaskMeanings(e);
    b := And(e, PT_PRESENT_MASK) != 0;
  }

  method AddressIn(e: Word) returns (a: Word)
    ensures a == Frame(e)
  {
    MaskMeanings(e);
    a := And(e, PT_ADDR_MASK);
  }

  class Machine {
    const mem: array<Word>      // physical memory, one element per 8-byte word
    var freelist: Word
    var cr3: Word
    var startCr3: Word
    ghost var free: seq<nat>    // the pages on the free list, in order
    ghost var roots: set<nat>   // the roots of all page-table trees

    ghost predicate Valid()
      reads this, mem
    {
      StateOk(mem[..], roots, freelist, free)
    }

    /** The machine as the boot code leaves it: running on the static tables at `ptl2`, no heap yet. */
    constructor (memory: array<Word>, ptl2: Word)
      requires BootImage(memory[..], ptl2) && Root(ptl2) < 0x1_0000_0000_0000_0000
      ensures Valid() && mem == memory && mem[..] == old(memory[..])
      ensures roots == {Root(ptl2)} && cr3 == Root(ptl2) && free == []
      ensures Identity(mem[..], cr3, FOUR_GIB_PAGES)
    {
      mem := memory;
      freelist, free := 0, [];
      cr3, startCr3 := Root(ptl2), 0;
      roots := {Root(ptl2)};
      BootTreeOk(memory[..], ptl2);
      BootIsIdentity(memory[..], ptl2);
    }

    method Zero(page: nat)
      requires page % 4096 == 0 && page + 4096 <= 8 * mem.Length
      modifies mem
      ensures ZeroPage(mem[..], page) && SameOutside(old(mem[..]), mem[..], page)
    {
      ghost var m0 := mem[..];
      for i := 0 to 512
        invariant |mem[..]| == |m0|
        invariant forall j :: page / 8 <= j < page / 8 + i ==> mem[j] == 0
        invariant forall j :: 0 <= j < mem.Length && !InPage(page, j) ==> mem[j] == m0[j]
      {
        mem[page / 8 + i] := 0;
      }
    }

    /** The loop of `get_free_pages`, for any whole pages of memory. */
    method LinkRegion(base: nat, size: nat, oldFreelist: Word)
      requires size > 0 && size % 4096 == 0 && base % 4096 == 0
      requires base + size <= 8 * mem.Length < 0x1_0000_0000_0000_0000
      modifies mem
      ensures Relinked(old(mem[..]), mem[..], Region(base, size / 4096), size / 4096, oldFreelist)
    {
      hide Relinked;
      ghost var pages, m0 := Region(base, size / 4096), mem[..];
      RegionPages(m0, base, size / 4096);
      NothingLinked(m0, pages, oldFreelist);
      var end := base + size;
      var p := base;
      ghost var k := 0;
      while p + 4096 != end
        invariant 0 <= k < |pages| && p == base + 4096 * k
        invariant Relinked(m0, mem[..], pages, k, oldFreelist)
        decreases |pages| - k
      {
        ghost var m := mem[..];
        assert k + 1 < |pages| && pages[k] == p && pages[k + 1] == p + 4096;
        LinkNext(m0, m, pages, k, oldFreelist, p + 4096);
        mem[p / 8] := p + 4096;
        assert mem[..] == m[p / 8 := p + 4096];
        p := p + 4096;
        k := k + 1;
      }
      ghost var m := mem[..];
      assert k + 1 == |pages| && pages[k] == p;
      LinkNext(m0, m, pages, k, oldFreelist, oldFreelist);
      mem[p / 8] := oldFreelist;
      assert mem[..] == m[p / 8 := oldFreelist];
    }

    /** Ownership is kept if and only if none of the pages is page 0, a table or already free. */
    method GetFreePages(base: nat, size: nat) returns (r: nat)
      requires Valid() && size % 4096 == 0
      requires size > 0 ==> base % 4096 == 0 && base + size <= 8 * mem.Length
      modifies this`freelist, this`free, mem
      ensures free == Region(base, size / 4096) + old(free)
      ensures forall i :: 0 <= i < size / 4096 ==> free[i] == base + 4096 * i
      ensures forall i :: 0 <= i < size / 4096 ==>
                mem[(base + 4096 * i) / 8] == if i + 1 < size / 4096 then base + 4096 * (i + 1) else old(freelist)
      ensures Valid() <==> Givable(old(mem[..]), roots, old(free), Region(base, size / 4096))
      ensures Valid() ==> SameTrees(old(mem[..]), mem[..], roots)
      ensures size > 0 ==> freelist == base
      ensures size > 0 ==> Relinked(old(mem[..]), mem[..], Region(base, size / 4096), size / 4096, old(freelist))
      ensures size > 0 && base > 0 ==>
                ((exists list :: FreeList(mem[..], freelist, list)) <==>
                 (forall i :: 0 <= i < |old(free)| ==> old(free)[i] !in Region(base, size / 4096)))
      ensures size > 0 && base == 0 ==> forall list :: FreeList(mem[..], freelist, list) ==> list == []
      ensures r == if size == 0 then 0 else base
    {
      if size == 0 {
        assert free == Region(base, 0) + free;
        return 0;
      }
      ghost var pages, m0 := Region(base, size / 4096), mem[..];
      RegionPages(m0, base, size / 4096);
      var oldFreelist: Word := freelist;
      freelist := base;
      LinkRegion(base, size, oldFreelist);
      assert pages[0] == base && (base > 0 ==> 0 !in pages);
      forall i | 0 <= i < size / 4096
        ensures (base + 4096 * i) / 8 < mem.Length
        ensures mem[(base + 4096 * i) / 8] == if i + 1 < size / 4096 then base + 4096 * (i + 1) else oldFreelist
      {
        assert Entry(mem[..], pages[i], 0) == Link(pages, i, oldFreelist);
      }
      hide StateOk, Relinked, FreeList, Givable, WholePages, Region, SameTrees;
      if Givable(m0, roots, free, pages) {
        Prepend(m0, mem[..], roots, oldFreelist, free, pages);
      } else {
        PrependFails(m0, mem[..], roots, oldFreelist, free, pages);
      }
      ListBefore(m0, roots, oldFreelist, free);
      FreedTwiceIff(m0, mem[..], pages, oldFreelist, free);
      free := pages + free;
      return freelist;
    }

    method HeapAllocPage() returns (page: Word)
      requires Valid() || freelist == 0
      modifies this`freelist, this`free, mem
      ensures old(freelist) == 0 ==> page == 0 && freelist == 0 && free == old(free) && mem[..] == old(mem[..])
      ensures old(Valid()) ==> Valid() && SameTrees(old(mem[..]), mem[..], roots)
      ensures old(Valid()) ==> (old(freelist) == 0 <==> old(free) == [])
      ensures old(freelist) != 0 ==>
                && page == old(free[0]) && free == old(free)[1..]
                && PageAt(mem[..], page) && page !in free && NotATable(mem[..], roots, page)
                && ZeroPage(mem[..], page) && SameOutside(old(mem[..]), mem[..], page)
    {
      assert Valid() && free != [] ==> PageAt(mem[..], free[0]);
      if freelist == 0 {
        return 0;
      }
      page := freelist;
      ghost var m0 := mem[..];
      freelist := mem[freelist / 8];
      Zero(page);
      TakeHead(m0, mem[..], roots, page, free);
      free := free[1..];
    }

    /** A page for a new table can be had: the caller's, or one off the free list. */
    ghost predicate HasPage(ptPage: Word)
      reads this, mem
    {
      && Valid()
      && if ptPage == 0 then free != []
         else PageAt(mem[..], ptPage) && NotATable(mem[..], roots, ptPage) && ptPage !in free
    }

    /** The page for a new table: the caller's page if it gave one, else a page off the free list,
        else page 0. */
    method TakePage(ptPage: Word) returns (page: Word)
      requires HasPage(ptPage) || (ptPage == 0 && freelist == 0 && mem.Length >= 512)
      modifies this`freelist, this`free, mem
      ensures page % 4096 == 0 && ZeroPage(mem[..], page) && SameOutside(old(mem[..]), mem[..], page)
      ensures old(HasPage(ptPage)) ==>
                && FreeList(mem[..], freelist, free) && FreeIsNoTable(old(mem[..]), roots, free)
                && PageAt(old(mem[..]), page) && NotATable(old(mem[..]), roots, page) && page !in free
                && free == if ptPage == 0 then old(free)[1..] else old(free)
      ensures ptPage == 0 && old(freelist) == 0 ==> page == 0 && freelist == 0 && free == old(free)
    {
      ghost var ready := HasPage(ptPage);
      page := ptPage;
      if page == 0 {
        if ready {
          assert NotATable(mem[..], roots, free[0]) && PageAt(mem[..], free[0]);
          assert forall i :: 0 <= i < |free[1..]| ==> free[1..][i] == free[i + 1];
        }
        page := HeapAllocPage();
      }
      ghost var m := mem[..];
      Zero(page);
      if ready {
        WriteOutsideFree(m, mem[..], freelist, free, page);
      }
    }

    /** The branch of `install_pte` that puts a table where the path has none; m1 is the memory
        once the page has been zeroed. */
    method LinkNewTable(pt: Word, offset: nat, page: Word) returns (page': Word, ghost x: Word, ghost m1: seq<Word>)
      requires HasPage(page) || (page == 0 && freelist == 0 && mem.Length >= 512)
      requires pt / 8 + offset < mem.Length
      modifies this`freelist, this`free, mem
      ensures page' == 0 && TableFlags(x) < 0x1_0000_0000_0000_0000
      ensures x % 4096 == 0 && ZeroPage(m1, x) && SameOutside(old(mem[..]), m1, x)
      ensures mem[..] == m1[pt / 8 + offset := TableFlags(x)]
      ensures old(HasPage(page)) ==>
                && FreeList(m1, freelist, free) && FreeIsNoTable(old(mem[..]), roots, free)
                && PageAt(old(mem[..]), x) && NotATable(old(mem[..]), roots, x) && x !in free
                && free == if page == 0 then old(free)[1..] else old(free)
      ensures page == 0 && old(freelist) == 0 ==> x == 0 && freelist == 0 && free == old(free)
    {
      var newPt := TakePage(page);
      x, m1, page' := newPt, mem[..], 0;
      FlagsFit(newPt);
      var entry: Word := TableFlags(newPt);
      mem[pt / 8 + offset] := entry;
    }

    ghost predicate Descent(m0: seq<Word>, c: nat, v: Path, d: nat, free0: seq<nat>, ptPage: nat,
                            pt: nat, page: nat, dry: bool, m1: seq<Word>, k: nat)
      requires d <= |v|
      reads this, mem
    {
      DescentAt(mem[..], roots, freelist, free, m0, c, v, d, free0, ptPage, pt, page, dry, m1, k)
    }

    /** The round of `install_pte` that finds no entry. */
    method NewTable(offset: nat, pt: Word, page: Word, ghost c: nat, ghost v: Path, ghost d: nat,
                    ghost m0: seq<Word>, ghost free0: seq<nat>, ghost ptPage: Word,
                    ghost dry: bool, ghost m1: seq<Word>, ghost k: nat)
      returns (page': Word, ghost dry': bool, ghost m1': seq<Word>, ghost k': nat)
      requires d < 3 && FullPath(v) && offset == v[d] && c in roots && pt / 8 + offset < mem.Length
      requires Descent(m0, c, v, d, free0, ptPage, pt, page, dry, m1, k) && !Present(Entry(mem[..], pt, offset))
      requires ptPage != 0 ==> PageAt(m0, ptPage) && NotATable(m0, roots, ptPage) && ptPage !in free0
      modifies this`freelist, this`free, mem
      ensures Descent(m0, c, v, d + 1, free0, ptPage, Frame(Entry(mem[..], pt, offset)), page', dry', m1', k')
    {
      hide Frame, Missing, Taken, TableFlags, Present, DryLink, OnlySelfLinks, TreesOk;
      ghost var m := mem[..];
      ghost var ready := !dry && Taken(Missing(m0, c, v, d + 1), ptPage) <= |free0|;
      MemoryHasPageZero(m, roots, c, v, dry, m1, k);
      if ready {
        PageReady(m0, m, roots, c, v, d, pt, free0, ptPage, free, page);
        TableNotFree(m, roots, c, v, d, free);
      } else if !dry {
        NoPageLeft(m0, m, roots, c, v, d, pt, free0, ptPage, free, page);
      }
      ghost var x, mx;
      page', x, mx := LinkNewTable(pt, offset, page);
      hide StateOk, Descending, DescentAt, FreeList, FreeIsNoTable, NotATable, ZeroPage, SameOutside, Supply;
      if ready {
        dry', m1', k' := false, m, d;
        ReadyRound(m0, m, mx, mem[..], roots, freelist, free, c, v, d, free0, ptPage, pt, x);
      } else {
        dry', m1', k' := true, if dry then m1 else m, if dry then k else d;
        DryRound(m0, m, mx, mem[..], roots, free, c, v, d, free0, ptPage, pt, dry, m1, k);
      }
    }

    /** One round of the loop of `install_pte`: follow or create the table below `pt`. */
    method NextTable(offset: nat, pt: Word, page: Word, ghost c: nat, ghost v: Path, ghost d: nat,
                     ghost m0: seq<Word>, ghost free0: seq<nat>, ghost ptPage: Word,
                     ghost dry: bool, ghost m1: seq<Word>, ghost k: nat)
      returns (pt': Word, page': Word, ghost dry': bool, ghost m1': seq<Word>, ghost k': nat)
      requires d < 3 && FullPath(v) && offset == v[d] && c in roots && PathClear(m0, c, v, d + 1)
      requires Descent(m0, c, v, d, free0, ptPage, pt, page, dry, m1, k)
      requires ptPage != 0 ==> PageAt(m0, ptPage) && NotATable(m0, roots, ptPage) && ptPage !in free0
      modifies this`freelist, this`free, mem
      ensures Descent(m0, c, v, d + 1, free0, ptPage, pt', page', dry', m1', k')
    {
      hide Frame, Missing, Taken, PathClear, TableFlags;
      MemoryHasPageZero(mem[..], roots, c, v, dry, m1, k);
      if !dry {
        PathTable(mem[..], roots, c, v, d);
      }
      page', dry', m1', k' := page, dry, m1, k;
      var present := IsPresent(mem[pt / 8 + offset]);
      if !present {
        page', dry', m1', k' := NewTable(offset, pt, page, c, v, d, m0, free0, ptPage, dry, m1, k);
      } else if dry {
        LinkWord(0);
        assert Entry(mem[..], 0, offset) == TableFlags(0);
      } else {
        DescendLinked(m0, mem[..], roots, c, v, d, pt);
      }
      pt' := AddressIn(mem[pt / 8 + offset]);
    }

    /** The final store of `install_pte`. */
    method StoreEntry(offset: nat, pt: Word, pte: Word, ghost c: nat, ghost v: Path, ghost d: nat, ghost m0: seq<Word>,
                      ghost dry: bool, ghost m1: seq<Word>, ghost k: nat)
      requires c in roots && d <= 3 && FullPath(v) && offset == v[d] && !(d < 3 && Links(pte))
      requires if dry then DryLink(m1, mem[..], roots, c, v, k) && pt == 0
               else Valid() && Descending(m0, mem[..], roots, c, v, d, pt)
      modifies mem
      ensures dry ==> !TablesArePages(mem[..], roots)
      ensures !dry ==>
                && Valid() && Entry(mem[..], pt, offset) == pte && TableAt(mem[..], c, v[..d]) == Some(pt)
                && InstalledTables(m0, mem[..], roots, c, v, d) && InstalledWalks(m0, mem[..], roots, c, v, d, pte)
                && ChangedOnPath(m0, mem[..], c, v, d) && NoNewLarge(m0, mem[..], c, v[..d + 1])
    {
      ghost var m := mem[..];
      MemoryHasPageZero(m, roots, c, v, dry, m1, k);
      if !dry { PathTable(m, roots, c, v, d); }
      mem[pt / 8 + offset] := pte;
      assert mem[..] == m[pt / 8 + offset := pte];
      if dry {
        DryStays(m1, m, mem[..], roots, c, v, k);
        DryBreaks(m1, mem[..], roots, c, v, k);
      } else {
        LeafStep(m0, m, mem[..], roots, freelist, free, c, v, d, pt, pte);
      }
    }

    /** The loop of `install_pte`: the table for `virt` at `pteLevel`, created if need be. */
    method Descend(c: Word, pteLevel: nat, virt: Word, ptPage: Word, ghost v: Path)
      returns (pt: Word, ghost dry: bool, ghost m1: seq<Word>, ghost k: nat)
      requires Valid() && c in roots && 1 <= pteLevel <= 4
      requires FullPath(v) && forall i :: 0 <= i < 4 ==> v[i] == Idx(virt, 4 - i)
      requires PathClear(mem[..], c, v, 4 - pteLevel)
      requires ptPage != 0 ==> PageAt(mem[..], ptPage) && NotATable(mem[..], roots, ptPage) && ptPage !in free
      modifies this`freelist, this`free, mem
      ensures dry == (|old(free)| < Taken(Missing(old(mem[..]), c, v, 4 - pteLevel), ptPage))
      ensures dry ==> DryLink(m1, mem[..], roots, c, v, k) && pt == 0
      ensures !dry ==> Valid() && Descending(old(mem[..]), mem[..], roots, c, v, 4 - pteLevel, pt)
      ensures !dry ==> free == old(free)[Taken(Missing(old(mem[..]), c, v, 4 - pteLevel), ptPage)..]
    {
      ghost var m0, free0, d := mem[..], free, 0;
      DescentStarts(m0, roots, freelist, free, c, v, ptPage);
      hide StateOk, DescentAt, Descending, DryLink, PathClear, Idx, Missing, Taken;
      var level, page := 4, ptPage;
      pt, dry, m1, k := c, false, m0, 0;
      while level > pteLevel
        invariant pteLevel <= level <= 4 && d == 4 - level
        invariant Descent(m0, c, v, d, free0, ptPage, pt, page, dry, m1, k)
      {
        var offset := PgdirOffset(virt, level);
        assert v[d] == offset;
        ClearSoFar(m0, c, v, d + 1, 4 - pteLevel);
        pt, page, dry, m1, k := NextTable(offset, pt, page, c, v, d, m0, free0, ptPage, dry, m1, k);
        level := level - 1;
        d := d + 1;
      }
      assert d == 4 - pteLevel;
      DescentEnds(mem[..], roots, freelist, free, m0, c, v, d, free0, ptPage, pt, page, dry, m1, k);
    }

    /** Ownership is kept if and only if there are pages for all the tables that are missing; and
        then tables, translations and the rest of the list are given exactly. */
    method InstallPte(c: Word, pteLevel: nat, virt: Word, pte: Word, ptPage: Word) returns (slot: nat)
      requires Valid() && c in roots && 1 <= pteLevel <= 4 && (pteLevel > 1 ==> !Links(pte))
      requires PathClear(mem[..], c, PathOf(virt), 4 - pteLevel)
      requires ptPage != 0 ==> PageAt(mem[..], ptPage) && NotATable(mem[..], roots, ptPage) && ptPage !in free
      modifies this`freelist, this`free, mem
      ensures var enough := |old(free)| >= Taken(Missing(old(mem[..]), c, PathOf(virt), 4 - pteLevel), ptPage);
              if enough then Valid() else !TablesArePages(mem[..], roots) && slot == 8 * Idx(virt, pteLevel)
      ensures Valid() ==>
                && InstalledTables(old(mem[..]), mem[..], roots, c, PathOf(virt), 4 - pteLevel)
                && InstalledWalks(old(mem[..]), mem[..], roots, c, PathOf(virt), 4 - pteLevel, pte)
                && ChangedOnPath(old(mem[..]), mem[..], c, PathOf(virt), 4 - pteLevel)
                && NoNewLarge(old(mem[..]), mem[..], c, PathOf(virt)[..5 - pteLevel])
                && free == old(free)[Taken(Missing(old(mem[..]), c, PathOf(virt), 4 - pteLevel), ptPage)..]
                && TableAt(mem[..], c, PathOf(virt)[..4 - pteLevel]).Some?
                && slot == TableAt(mem[..], c, PathOf(virt)[..4 - pteLevel]).value + 8 * Idx(virt, pteLevel)
                && Entry(mem[..], TableAt(mem[..], c, PathOf(virt)[..4 - pteLevel]).value, Idx(virt, pteLevel)) == pte
    {
      ghost var m0, v := mem[..], PathOf(virt);
      ghost var dry, m1, k;
      var pt;
      pt, dry, m1, k := Descend(c, pteLevel, virt, ptPage, v);
      var offset := PgdirOffset(virt, pteLevel);
      StoreEntry(offset, pt, pte, c, v, 4 - pteLevel, m0, dry, m1, k);
      slot := pt + 8 * offset;
    }

    /** The run of `install_pte` that meets only present entries, whether they link tables or map
        large pages. */
    method InstallOverPresent(c: Word, pteLevel: nat, virt: Word, pte: Word) returns (slot: nat)
      requires 1 <= pteLevel <= 4 && Reached(mem[..], c, 4, pteLevel, virt).Some?
      requires Reached(mem[..], c, 4, pteLevel, virt).value / 8 + Idx(virt, pteLevel) < mem.Length
      modifies mem
      ensures var pt := Reached(old(mem[..]), c, 4, pteLevel, virt).value;
              slot == pt + 8 * Idx(virt, pteLevel) && mem[..] == old(mem[..])[pt / 8 + Idx(virt, pteLevel) := pte]
    {
      hide Idx, Frame;
      var level, pt: Word := 4, c;
      while level > pteLevel
        invariant pteLevel <= level <= 4 && mem[..] == old(mem[..])
        invariant Reached(mem[..], pt, level, pteLevel, virt) == Reached(mem[..], c, 4, pteLevel, virt)
      {
        var offset := PgdirOffset(virt, level);
        assert Present(Entry(mem[..], pt, offset));
        pt := AddressIn(mem[pt / 8 + offset]);
        level := level - 1;
      }
      var offset := PgdirOffset(virt, level);
      mem[pt / 8 + offset] := pte;
      slot := pt + 8 * offset;
    }

    method InstallPage(c: Word, phys: Word, virt: Word) returns (slot: nat)
      requires Valid() && c in roots && PathClear(mem[..], c, PathOf(virt), 3)
      modifies this`freelist, this`free, mem
      ensures if |old(free)| >= Missing(old(mem[..]), c, PathOf(virt), 3)
              then Valid() else !TablesArePages(mem[..], roots)
      ensures Valid() ==>
                && RangeMapped(old(mem[..]), mem[..], roots, c, PageNo(virt), 1, phys)
                && InstalledTables(old(mem[..]), mem[..], roots, c, PathOf(virt), 3)
                && InstalledWalks(old(mem[..]), mem[..], roots, c, PathOf(virt), 3, TableFlags(phys))
                && ChangedOnPath(old(mem[..]), mem[..], c, PathOf(virt), 3)
                && NoNewLarge(old(mem[..]), mem[..], c, PathOf(virt))
                && free == old(free)[Missing(old(mem[..]), c, PathOf(virt), 3)..]
    {
      TableFlagsMeaning(phys);
      ghost var m0 := mem[..];
      assert PathOf(virt)[..4] == PathOf(virt);
      hide StateOk, InstalledTables, InstalledWalks, ChangedOnPath, NoNewLarge, TablesArePages, TableFlags, RangeMapped;
      slot := InstallPte(c, 1, virt, TableFlags(phys), 0);
      if Valid() {
        RangeStarts(m0, mem[..], roots, c, virt, phys);
      }
    }

    method InstallLargePage(c: Word, phys: Word, virt: Word) returns (slot: nat)
      requires Valid() && c in roots && PathClear(mem[..], c, PathOf(virt), 2)
      modifies this`freelist, this`free, mem
      ensures if |old(free)| >= Missing(old(mem[..]), c, PathOf(virt), 2)
              then Valid() else !TablesArePages(mem[..], roots)
      ensures Valid() ==>
                && BlockMapped(old(mem[..]), mem[..], roots, c, virt, phys)
                && InstalledTables(old(mem[..]), mem[..], roots, c, PathOf(virt), 2)
                && ChangedOnPath(old(mem[..]), mem[..], c, PathOf(virt), 2)
                && free == old(free)[Missing(old(mem[..]), c, PathOf(virt), 2)..]
    {
      LargeEntry(phys, virt);
      LargeFlagsFit(phys);
      ghost var m0 := mem[..];
      hide StateOk, InstalledTables, InstalledWalks, ChangedOnPath, NoNewLarge, TablesArePages, BlockMapped, LargeFlags;
      slot := InstallPte(c, 2, virt, LargeFlags(phys), 0);
      if Valid() {
        InstalledBlock(m0, mem[..], roots, c, virt, phys);
      }
    }

    /** By LoopEndsIff the source never returns for any other start and length. */
    method InstallPages(c: Word, phys0: Word, len: Word, virt0: Word)
      requires Valid() && c in roots && Ends(phys0, len) && PageNo(virt0) + Rounds(phys0, len) <= PAGES
      requires forall p :: PageNo(virt0) <= p < PageNo(virt0) + Rounds(phys0, len) ==> PageClear(mem[..], c, p)
      requires |free| >= NewTables(mem[..], c, PageNo(virt0), Rounds(phys0, len))
      modifies this`freelist, this`free, mem
      ensures Valid() && RangeMapped(old(mem[..]), mem[..], roots, c, PageNo(virt0), Rounds(phys0, len), phys0)
      ensures RangeTables(old(mem[..]), mem[..], roots, c, PageNo(virt0), Rounds(phys0, len))
      ensures ChangedInTree(old(mem[..]), mem[..], c)
      ensures free == old(free)[NewTables(old(mem[..]), c, PageNo(virt0), Rounds(phys0, len))..]
    {
      ghost var m0 := mem[..];
      InstallRun(c, phys0, len, virt0, PageNo(virt0), Rounds(phys0, len));
      assert Progress(m0, mem[..], roots, c, PageNo(virt0), Rounds(phys0, len), phys0, old(free), free);
    }

    /** The loop of `install_pages`, for the n pages from page f on. */
    method InstallRun(c: Word, phys0: Word, len: Word, virt0: Word, ghost f: nat, ghost n: nat)
      requires Valid() && c in roots && Ends(phys0, len) && n == Rounds(phys0, len)
      requires PageNo(virt0) == f && f + n <= PAGES
      requires forall p :: f <= p < f + n ==> PageClear(mem[..], c, p)
      requires |free| >= NewTables(mem[..], c, f, n)
      modifies this`freelist, this`free, mem
      ensures Valid() && Progress(old(mem[..]), mem[..], roots, c, f, n, phys0, old(free), free)
    {
      hide NewTables, PageClear, RangeMapped, RangeTables, ChangedInTree, NoNewLarge, StateOk, Rounds, PhysPage, Ends,
        Wrap, PageNo, Progress;
      ghost var m0, free0, k := mem[..], free, 0;
      NoWrap(phys0);
      NoWrap(virt0);
      var phys: nat, virt: nat, max: nat := phys0, virt0, Wrap(phys0 + len);
      ProgressStart(m0, roots, c, f, phys0, free);
      RoundsMeaning(phys0, len);
      AddPage(phys0);
      while Wrap(phys + 4096) <= max
        invariant 0 <= k <= n && phys == Wrap(phys0 + 4096 * k) && virt == Wrap(virt0 + 4096 * k)
        invariant Wrap(phys + 4096) == NextPhys(phys0, k)
        invariant Valid() && Progress(m0, mem[..], roots, c, f, k, phys0, free0, free)
        decreases n - k
      {
        assert GoesOn(phys0, len, k);
        PageNoAdd(virt0, k);
        NoWrap(virt0 + 4096 * k);
        assert PageClear(m0, c, f + k);
        WrappedFrame(phys0 + 4096 * k);
        InstallNext(c, phys, virt, m0, free0, f, k, n, phys0);
        AddPage(virt0 + 4096 * k);
        phys := Wrap(phys + 4096);
        virt := Wrap(virt + 4096);
        k := k + 1;
        AddPage(phys0 + 4096 * k);
      }
      assert !GoesOn(phys0, len, k);
    }

    /** One round of `install_pages`. */
    method InstallNext(c: Word, phys: Word, virt: Word, ghost m0: seq<Word>, ghost free0: seq<nat>,
                       ghost f: nat, ghost k: nat, ghost n: nat, ghost phys0: Word)
      requires Valid() && c in roots && k < n && PageNo(virt) == f + k && PhysPage(phys) == PhysPage(phys0 + 4096 * k)
      requires Progress(m0, mem[..], roots, c, f, k, phys0, free0, free)
      requires PageClear(m0, c, f + k) && NewTables(m0, c, f, n) <= |free0|
      modifies this`freelist, this`free, mem
      ensures Valid() && Progress(m0, mem[..], roots, c, f, k + 1, phys0, free0, free)
    {
      ghost var m, free1 := mem[..], free;
      ghost var taken := Missing(m, c, PathOf(virt), 3);
      ProgressReady(m0, m, roots, c, f, k, n, phys0, free0, free, virt);
      var _ := InstallPage(c, phys, virt);
      ProgressStep(m0, m, mem[..], roots, c, f, k, phys0, free0, free1, virt, phys, taken);
    }

    /** The first line of `setup_mmu`: a zeroed page becomes the root of an empty tree. */
    method NewRoot() returns (root: Word)
      requires Valid() && free != []
      modifies this`freelist, this`free, this`roots, mem
      ensures Valid() && root == old(free)[0] && root !in old(roots) && roots == old(roots) + {root}
      ensures free == old(free)[1..]
      ensures EmptyTree(mem[..], root) && ZeroPage(mem[..], root)
      ensures SameWalksOf(old(mem[..]), mem[..], old(roots)) && SameOutside(old(mem[..]), mem[..], root)
    {
      root := HeapAllocPage();
      assert root !in roots by { assert ValidPath([]) && TableAt(mem[..], root, []) == Some(root); }
      AddRoot(mem[..], roots, root);
      ghost var tail := free;
      forall i | 0 <= i < |tail| ensures NotATable(mem[..], roots + {root}, tail[i]) {
        assert NotATable(mem[..], roots, tail[i]);
      }
      roots := roots + {root};
    }

    /** A fresh tree that maps the pages below end to themselves. */
    method IdentityTree(end: Word) returns (root: Word)
      requires Valid() && end / 4096 <= PAGES && |free| >= 1 + TablesFor(end / 4096)
      modifies this`freelist, this`free, this`roots, mem
      ensures Valid() && root == old(free)[0] && roots == old(roots) + {root}
      ensures Identity(mem[..], root, end / 4096) && ChangedInTree(old(mem[..]), mem[..], root)
      ensures SameWalksOf(old(mem[..]), mem[..], old(roots))
      ensures free == old(free)[1 + TablesFor(end / 4096)..]
      ensures (cr3 in old(roots) && old(Identity(mem[..], cr3, FOUR_GIB_PAGES)) && end / 4096 <= FOUR_GIB_PAGES)
              ==> AgreesWith(mem[..], root, cr3)
    {
      hide StateOk, Identity, SameWalksOf, ChangedInTree, AgreesWith, TablesFor, EmptyTree, ZeroPage, SameOutside,
        PageClear, NewTables, RangeMapped, RangeTables;
      ghost var m0, n := mem[..], end / 4096;
      root := NewRoot();
      ghost var m1 := mem[..];
      FreshReady(m1, root, n);
      InstallPages(root, 0, end, 0);
      SetupResult(m0, m1, mem[..], old(roots), root, n, cr3);
    }

    /** The new tree maps the n pages below the end of memory, 4 GiB if none is given, to
        themselves, and it costs its root and the three ceilings in tables. */
    method SetupMmu(endOfMemory: Word) returns (root: Word)
      requires Valid()
      requires var n := (if endOfMemory == 0 then 0x1_0000_0000 else endOfMemory) / 4096;
               n <= PAGES && |free| >= 1 + (n + 511) / 512 + (n + 0x3_ffff) / 0x4_0000 + (n + 0x7ff_ffff) / 0x800_0000
      modifies this, mem
      ensures Valid() && root == cr3 == old(free)[0] && startCr3 == old(cr3) && roots == old(roots) + {cr3}
      ensures var n := (if endOfMemory == 0 then 0x1_0000_0000 else endOfMemory) / 4096;
              forall va: nat :: va < 0x1_0000_0000_0000 ==>
                Translate(mem[..], cr3, va) == if va < 4096 * n then Mapped(va, true, true) else Fault
      ensures var n := (if endOfMemory == 0 then 0x1_0000_0000 else endOfMemory) / 4096;
              && Identity(mem[..], cr3, n)
              && free == old(free)[1 + (n + 511) / 512 + (n + 0x3_ffff) / 0x4_0000 + (n + 0x7ff_ffff) / 0x800_0000..]
      ensures SameWalksOf(old(mem[..]), mem[..], old(roots))
      ensures ChangedInTree(old(mem[..]), mem[..], cr3)
      ensures (old(cr3) in old(roots) && old(Identity(mem[..], cr3, FOUR_GIB_PAGES)) && endOfMemory <= 0x1_0000_0000)
              ==> AgreesWith(mem[..], cr3, startCr3)
    {
      var end: Word := if endOfMemory == 0 then 0x1_0000_0000 else endOfMemory;
      TablesForMeans(end / 4096);
      hide StateOk, Identity, SameWalksOf, ChangedInTree, AgreesWith, TablesFor;
      root := IdentityTree(end);
      assert endOfMemory <= 0x1_0000_0000 ==> end / 4096 <= FOUR_GIB_PAGES;
      startCr3 := cr3;
      cr3 := root;
      IdentityMeansAll(mem[..], cr3, end / 4096);
    }

    method SwitchToStartCr3()
      requires Valid() && startCr3 in roots
      modifies this`cr3
      ensures Valid() && cr3 == startCr3
    {
      cr3 := startCr3;
    }

    /** `setup_mmu` and later `switch_to_start_cr3`, as the benchmarks pair them: every address
        translates again as it did before. */
    method SetupAndSwitchBack(endOfMemory: Word)
      requires Valid() && cr3 in roots
      requires var n := (if endOfMemory == 0 then 0x1_0000_0000 else endOfMemory) / 4096;
               n <= PAGES && |free| >= 1 + (n + 511) / 512 + (n + 0x3_ffff) / 0x4_0000 + (n + 0x7ff_ffff) / 0x800_0000
      modifies this, mem
      ensures Valid() && cr3 == old(cr3)
      ensures forall va: nat :: Translate(mem[..], cr3, va) == Translate(old(mem[..]), old(cr3), va)
    {
      hide StateOk, Identity, ChangedInTree, AgreesWith;
      var root := SetupMmu(endOfMemory);
      SwitchToStartCr3();
    }
  }
}
