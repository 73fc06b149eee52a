/** What heap.c does where its callers do not keep to what it relies on: freeing a page twice,
    freeing a table or page 0, and installing a page below a large page. */
module Boundaries {
  import opened Bits
  import opened PageTable
  import opened PagePaths
  import opened HeapSpec
  import opened BootTables
  import opened Values

  // ----- freeing what is not free to give

  /** Following the links from the head passes through the chain, so every list starts with it. */
  lemma {:induction false} ChainIsPrefix(m: seq<Word>, chain: seq<nat>, free: seq<nat>, k: nat)
    requires k < |chain| && FreeList(m, chain[0], free)
    requires forall i :: 0 <= i < |chain| ==> chain[i] != 0
    requires forall i {:trigger Entry(m, chain[i], 0)} :: 0 <= i < |chain| - 1 ==> Entry(m, chain[i], 0) == chain[i + 1]
    ensures k < |free| && free[k] == chain[k]
  {
    if k > 0 {
      ChainIsPrefix(m, chain, free, k - 1);
      assert Entry(m, free[k - 1], 0) == Link(free, k - 1, 0);
      assert Entry(m, chain[k - 1], 0) == chain[k];
    }
  }

  /** The first page of the list that is one of the new pages closes a circle. */
  lemma CircleCloses(m0: seq<Word>, m: seq<Word>, pages: seq<nat>, free: seq<nat>, j: nat, list: seq<nat>)
    requires j < |free| && free[j] in pages && forall i :: 0 <= i < j ==> free[i] !in pages
    requires FreeList(m0, free[0], free) && WholePages(m0, pages) && 0 !in pages
    requires Relinked(m0, m, pages, |pages|, free[0])
    ensures !FreeList(m, pages[0], list)
  {
    if FreeList(m, pages[0], list) {
      var n, chain := |pages|, pages + free[..j + 1];
      forall i | 0 <= i < |chain| - 1 ensures Entry(m, chain[i], 0) == chain[i + 1] {
        if i < n {
          assert Entry(m, pages[i], 0) == Link(pages, i, free[0]);
        } else {
          assert PageAt(m0, free[i - n]) && Entry(m0, free[i - n], 0) == Link(free, i - n, 0);
          Unlinked(m0, m, pages, free[0], free[i - n], 0);
        }
      }
      forall i | 0 <= i < |chain| ensures chain[i] != 0 {
        assert if i < n then pages[i] in pages else PageAt(m0, free[i - n]);
      }
      var i :| 0 <= i < n && pages[i] == free[j];
      ChainIsPrefix(m, chain, list, i);
      ChainIsPrefix(m, chain, list, n + j);
    }
  }

  lemma {:induction false} FirstShared(pages: seq<nat>, free: seq<nat>, k: nat) returns (j: nat)
    requires k < |free| && free[k] in pages
    ensures j < |free| && free[j] in pages && forall i :: 0 <= i < j ==> free[i] !in pages
    decreases k
  {
    if i :| 0 <= i < k && free[i] in pages {
      j := FirstShared(pages, free, i);
    } else {
      j := k;
    }
  }

  /** After the stores of `get_free_pages` there is a list at the new head if and only if none of
      the pages was already free: freeing a page twice closes a circle. A region at address 0
      starts an empty list, and all that was free is lost. */
  lemma FreedTwiceIff(m0: seq<Word>, m: seq<Word>, pages: seq<nat>, head: nat, free: seq<nat>)
    requires FreeList(m0, head, free) && WholePages(m0, pages) && pages != []
    requires Relinked(m0, m, pages, |pages|, head)
    ensures 0 !in pages ==>
              ((exists list :: FreeList(m, pages[0], list)) <==> (forall i :: 0 <= i < |free| ==> free[i] !in pages))
    ensures pages[0] == 0 ==> forall list :: FreeList(m, pages[0], list) ==> list == []
  {
    if 0 !in pages {
      if k :| 0 <= k < |free| && free[k] in pages {
        var j := FirstShared(pages, free, k);
        forall list ensures !FreeList(m, pages[0], list) {
          CircleCloses(m0, m, pages, free, j, list);
        }
      } else {
        forall i | 0 <= i < |pages| ensures pages[i] != 0 && pages[i] !in free { assert pages[i] in pages; }
        ListsJoin(m0, m, pages, head, free);
      }
    }
    forall list | pages[0] == 0 && FreeList(m, pages[0], list) ensures list == [] {
      assert list != [] ==> PageAt(m, list[0]);
    }
  }

  /** Where the walk meets an absent entry below tables that exist, the address does not translate. */
  lemma {:induction false} AbsentFaults(m: seq<Word>, t: nat, level: nat, c: nat, va: nat, k: nat)
    requires k <= 3 && level == 4 - k && TableAt(m, c, PathOf(va)[..k]) == Some(t)
    requires Walk(m, t, level, va) == Fault
    ensures Translate(m, c, va) == Fault
    decreases k
  {
    hide Frame, Idx;
    if k == 0 {
      assert PathOf(va)[..0] == [];
    } else {
      var v := PathOf(va)[..k];
      assert v[..k - 1] == PathOf(va)[..k - 1] && v[k - 1] == Idx(va, 5 - k);
      TablePrefix(m, c, v, k - 1);
      AbsentFaults(m, TableAt(m, c, v[..k - 1]).value, level + 1, c, va, k - 1);
    }
  }

  /** Freeing a region unmaps everything below the first entry of every table in it that is not
      itself below another one. */
  lemma TableFreed(m0: seq<Word>, m: seq<Word>, roots: set<nat>, pages: seq<nat>, head: nat, c: nat, q: Path, va: nat)
    requires TreesOk(m0, roots) && WholePages(m0, pages) && Relinked(m0, m, pages, |pages|, head) && head % 4096 == 0
    requires c in roots && ValidPath(q) && TableAt(m0, c, q).Some? && TableAt(m0, c, q).value in pages
    requires forall k :: 0 <= k < |q| ==> TableAt(m0, c, q[..k]).Some? && TableAt(m0, c, q[..k]).value !in pages
    requires q + [0] <= PathOf(va)
    ensures Translate(m, c, va) == Fault
  {
    var t := TableAt(m0, c, q).value;
    StillATable(m0, m, roots, pages, head, c, q);
    var i :| 0 <= i < |pages| && pages[i] == t;
    var link := Entry(m, pages[i], 0);
    assert link == Link(pages, i, head);
    assert !Present(link) by { DivModUnique(link, 2, 2048 * (link / 4096), 0); }
    assert PathOf(va)[..|q|] == q && PathOf(va)[|q|] == (q + [0])[|q|] == 0;
    AbsentFaults(m, t, 4 - |q|, c, va, |q|);
  }

  // ----- installing below a large page

  /** Where the loop of `install_pte` arrives if every entry it meets is present. */
  function Reached(m: seq<Word>, pt: nat, level: nat, target: nat, virt: nat): Option<nat>
    requires 1 <= target <= level <= 4
    decreases level
  {
    if level == target then Some(pt)
    else
      var e := Entry(m, pt, Idx(virt, level));
      if Present(e) then Reached(m, Frame(e), level - 1, target, virt) else None
  }

  /** As far as there are tables, it arrives at them. */
  lemma {:induction false} ReachesTables(m: seq<Word>, c: nat, virt: nat, k: nat, target: nat)
    requires k <= 4 - target && 1 <= target <= 4 && TableAt(m, c, PathOf(virt)[..k]).Some?
    ensures Reached(m, c, 4, target, virt) == Reached(m, TableAt(m, c, PathOf(virt)[..k]).value, 4 - k, target, virt)
  {
    hide Frame, Idx;
    if k == 0 {
      assert PathOf(virt)[..0] == [];
    } else {
      var v := PathOf(virt)[..k];
      assert v[..k - 1] == PathOf(virt)[..k - 1] && v[k - 1] == Idx(virt, 5 - k);
      TablePrefix(m, c, v, k - 1);
      ReachesTables(m, c, virt, k - 1, target);
    }
  }

  lemma {:induction false} ReachesPages(m: seq<Word>, pt: nat, level: nat, target: nat, virt: nat)
    requires 1 <= target <= level <= 4 && pt % 4096 == 0 && Reached(m, pt, level, target, virt).Some?
    ensures Reached(m, pt, level, target, virt).value % 4096 == 0
    decreases level
  {
    hide Frame, Idx;
    if level > target {
      FrameIsPage(Entry(m, pt, Idx(virt, level)));
      ReachesPages(m, Frame(Entry(m, pt, Idx(virt, level))), level - 1, target, virt);
    }
  }

  /** If following present entries, large pages among them, leads to a page that is no table, the
      store there has no effect on any translation. */
  lemma InstallLost(m: seq<Word>, m2: seq<Word>, roots: set<nat>, c: nat, virt: nat, pte: Word)
    requires TreesOk(m, roots) && c in roots && Reached(m, c, 4, 1, virt).Some?
    requires var page := Reached(m, c, 4, 1, virt).value;
             NotATable(m, roots, page) && page / 8 + Idx(virt, 1) < |m| && m2 == m[page / 8 + Idx(virt, 1) := pte]
    ensures SameWalksOf(m, m2, roots)
  {
    assert PageAt(m, c) by { assert TableAt(m, c, []) == Some(c) && ValidPath([]); }
    ReachesPages(m, c, 4, 1, virt);
    assert SameOutside(m, m2, Reached(m, c, 4, 1, virt).value);
    WriteOutsideTrees(m, m2, roots, Reached(m, c, 4, 1, virt).value);
  }

  /** Below a 2 MiB page the install arrives at the mapped frame; if that is no table, it has no
      effect on any translation. */
  lemma LargePageInTheWay(m: seq<Word>, m2: seq<Word>, roots: set<nat>, c: nat, virt: nat, pte: Word)
    requires TreesOk(m, roots) && c in roots && LargeAt(m, c, PathOf(virt)[..2], Idx(virt, 2))
    ensures Reached(m, c, 4, 1, virt).Some?
    ensures var frame := Reached(m, c, 4, 1, virt).value;
            && frame == Frame(Entry(m, TableAt(m, c, PathOf(virt)[..2]).value, Idx(virt, 2)))
            && (NotATable(m, roots, frame) && frame / 8 + Idx(virt, 1) < |m| && m2 == m[frame / 8 + Idx(virt, 1) := pte]
                ==> SameWalksOf(m, m2, roots))
  {
    ReachesTables(m, c, virt, 2, 1);
    var frame := Reached(m, c, 4, 1, virt).value;
    if NotATable(m, roots, frame) && frame / 8 + Idx(virt, 1) < |m| && m2 == m[frame / 8 + Idx(virt, 1) := pte] {
      InstallLost(m, m2, roots, c, virt, pte);
    }
  }

  lemma FrameIsPage(e: nat)
    ensures Frame(e) % 4096 == 0
  {
    var x := e % PHYS_LIMIT;
    assert e == e / PHYS_LIMIT * PHYS_LIMIT + x;
    DivModUnique(e, 4096, e / PHYS_LIMIT * 0x100_0000_0000 + x / 4096, x % 4096);
    DivModUnique(Frame(e), 4096, x / 4096, 0);
  }

  /** So on the boot tables no install below 4 GiB changes what any address translates to,
      unless the entry falls into one of the tables themselves. */
  lemma BootInstallLost(m: seq<Word>, m2: seq<Word>, b: nat, virt: nat, pte: Word)
    requires BootImage(m, b) && PageNo(virt) < FOUR_GIB_PAGES
    ensures Reached(m, Root(b), 4, 1, virt) == Some(PageNo(virt) / 512 * 0x20_0000)
    ensures var frame := PageNo(virt) / 512 * 0x20_0000;
            NotATable(m, {Root(b)}, frame) && frame / 8 + Idx(virt, 1) < |m| && m2 == m[frame / 8 + Idx(virt, 1) := pte]
            ==> Identity(m2, Root(b), FOUR_GIB_PAGES)
  {
    BootTreeOk(m, b);
    BootIsIdentity(m, b);
    BootLarge(m, b, virt);
    hide PageNo, Idx, Root, Identity, SameWalksOf, TreesOk, Frame, LargeAt, Reached, TableAt, BootImage, NotATable;
    LargePageInTheWay(m, m2, {Root(b)}, Root(b), virt, pte);
    if SameWalksOf(m, m2, {Root(b)}) {
      IdentityKept(m, m2, {Root(b)}, Root(b), FOUR_GIB_PAGES);
    }
  }

  lemma BootLarge(m: seq<Word>, b: nat, virt: nat)
    requires BootImage(m, b) && PageNo(virt) < FOUR_GIB_PAGES
    ensures LargeAt(m, Root(b), PathOf(virt)[..2], Idx(virt, 2))
    ensures Frame(Entry(m, TableAt(m, Root(b), PathOf(virt)[..2]).value, Idx(virt, 2)))
         == PageNo(virt) / 512 * 0x20_0000
  {
    LowPages(virt);
    var j, i := Idx(virt, 3), Idx(virt, 2);
    TablesTwoDown(m, b, 0, j);
    LargeWordMeaning(512 * j + i, virt);
    LargeWordFrame(512 * j + i);
    hide PageNo, Idx, LargeWord, Level2, Root, Frame, TableAt;
    assert PathOf(virt)[..2] == [0, j];
    assert Entry(m, Level2(b, j), i) == LargeWord(512 * j + i);
  }

  lemma LargeWordFrame(i: nat)
    requires i < 2048
    ensures Frame(LargeWord(i)) == i * 0x20_0000
  {
    SmallMod(LargeWord(i), PHYS_LIMIT);
    DivModUnique(LargeWord(i), 4096, i * 512, 0x1e7);
  }
}
