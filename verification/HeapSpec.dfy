/** The free list, the ownership invariant of the heap, and the steps of `install_pte` as
    relations between memories. */
module HeapSpec {
  import opened Bits
  import opened PageTable
  import opened Values

  // ----- the free list threaded through the free pages

  /** The link stored in the i-th of `pages`, the last of which points to `last`. */
  function Link(pages: seq<nat>, i: nat, last: nat): nat {
    if i + 1 < |pages| then pages[i + 1] else last
  }

  ghost predicate FreeList(m: seq<Word>, head: nat, free: seq<nat>) {
    && head == (if free == [] then 0 else free[0])
    && (forall i :: 0 <= i < |free| ==> PageAt(m, free[i]))
    && (forall i {:trigger Entry(m, free[i], 0)} :: 0 <= i < |free| ==> Entry(m, free[i], 0) == Link(free, i, 0))
    && (forall i, j :: 0 <= i < j < |free| ==> free[i] != free[j])
  }

  /** No page is both free and part of a tree. */
  ghost predicate FreeIsNoTable(m: seq<Word>, roots: set<nat>, free: seq<nat>) {
    forall i :: 0 <= i < |free| ==> NotATable(m, roots, free[i])
  }

  /** The ownership invariant of the heap. */
  ghost predicate StateOk(m: seq<Word>, roots: set<nat>, head: nat, free: seq<nat>) {
    TreesOk(m, roots) && FreeList(m, head, free) && FreeIsNoTable(m, roots, free)
  }

  ghost predicate SameOutside(m: seq<Word>, m2: seq<Word>, x: nat) {
    |m| == |m2| && forall i :: 0 <= i < |m| && !InPage(x, i) ==> m2[i] == m[i]
  }

  ghost predicate SameTrees(m: seq<Word>, m2: seq<Word>, roots: set<nat>) {
    && (forall r, q {:trigger TableAt(m, r, q)} {:trigger TableAt(m2, r, q)} ::
          r in roots && ValidPath(q) ==> TableAt(m2, r, q) == TableAt(m, r, q))
    && SameWalksOf(m, m2, roots)
  }

  ghost predicate SameWalksOf(m: seq<Word>, m2: seq<Word>, roots: set<nat>) {
    forall r, va: nat :: r in roots ==> Translate(m2, r, va) == Translate(m, r, va)
  }

  lemma SamePage(m: seq<Word>, m2: seq<Word>, x: nat, a: nat, i: nat)
    requires SameOutside(m, m2, x) && x % 4096 == 0 && a % 4096 == 0 && a != x && i < 512
    ensures Entry(m2, a, i) == Entry(m, a, i)
  {
    PagesApart(a, i, x);
  }

  /** Writing inside a page that is no table leaves every tree as it was. */
  lemma WriteOutsideTrees(m: seq<Word>, m2: seq<Word>, roots: set<nat>, x: nat)
    requires TreesOk(m, roots) && SameOutside(m, m2, x) && x % 4096 == 0 && NotATable(m, roots, x)
    ensures TreesOk(m2, roots) && SameTrees(m, m2, roots)
    ensures forall a :: NotATable(m, roots, a) ==> NotATable(m2, roots, a)
  {
    forall r, q, i: nat | r in roots && ValidPath(q) && TableAt(m, r, q).Some? && i < 512
      ensures Entry(m2, TableAt(m, r, q).value, i) == Entry(m, TableAt(m, r, q).value, i)
    {
      SamePage(m, m2, x, TableAt(m, r, q).value, i);
    }
    OutsideTables(m, m2, roots);
  }

  /** Writing inside a page that is not free leaves the list as it was. */
  lemma WriteOutsideFree(m: seq<Word>, m2: seq<Word>, head: nat, free: seq<nat>, x: nat)
    requires FreeList(m, head, free) && SameOutside(m, m2, x) && x % 4096 == 0 && x !in free
    ensures FreeList(m2, head, free)
  {
    forall i | 0 <= i < |free| ensures Entry(m2, free[i], 0) == Entry(m, free[i], 0) {
      SamePage(m, m2, x, free[i], 0);
    }
  }

  lemma FreeListTail(m: seq<Word>, head: nat, free: seq<nat>)
    requires FreeList(m, head, free) && free != []
    ensures FreeList(m, Entry(m, head, 0), free[1..]) && head !in free[1..]
  {
    var rest := free[1..];
    assert Entry(m, free[0], 0) == Link(free, 0, 0);
    forall i | 0 <= i < |rest| ensures Entry(m, rest[i], 0) == Link(rest, i, 0) {
      assert Entry(m, free[i + 1], 0) == Link(free, i + 1, 0);
    }
  }

  /** Taking the head off the list and overwriting it keeps the invariant. */
  lemma TakeHead(m: seq<Word>, m2: seq<Word>, roots: set<nat>, head: nat, free: seq<nat>)
    requires StateOk(m, roots, head, free) && free != [] && SameOutside(m, m2, head)
    ensures StateOk(m2, roots, Entry(m, head, 0), free[1..])
    ensures SameTrees(m, m2, roots) && NotATable(m2, roots, head) && PageAt(m2, head) && head !in free[1..]
  {
    FreeListTail(m, head, free);
    assert NotATable(m, roots, free[0]) && PageAt(m, free[0]);
    WriteOutsideTrees(m, m2, roots, head);
    WriteOutsideFree(m, m2, Entry(m, head, 0), free[1..], head);
    assert forall i :: 0 <= i < |free[1..]| ==> NotATable(m, roots, free[1..][i]);
  }

  // ----- adding a run of pages to the list

  /** The n pages from base on, in address order. */
  function Region(base: nat, n: nat): (r: seq<nat>)
    ensures |r| == n && forall i :: 0 <= i < n ==> r[i] == base + 4096 * i
  {
    seq(n, i requires 0 <= i < n => base + 4096 * i)
  }

  /** Different whole pages of memory; page 0 may be among them. */
  ghost predicate WholePages(m: seq<Word>, pages: seq<nat>) {
    && (forall i :: 0 <= i < |pages| ==> pages[i] % 4096 == 0 && pages[i] + 4096 <= 8 * |m|)
    && (forall i, j :: 0 <= i < j < |pages| ==> pages[i] != pages[j])
  }

  lemma RegionPages(m: seq<Word>, base: nat, n: nat)
    requires base % 4096 == 0 && base + 4096 * n <= 8 * |m|
    ensures WholePages(m, Region(base, n))
  {}

  /** What the stores of `get_free_pages` leave: the first k of the pages linked in order, the last
      of all to the old head, and every other word as it was. */
  ghost predicate Relinked(m0: seq<Word>, m: seq<Word>, pages: seq<nat>, k: nat, head: nat) {
    && |m| == |m0| && k <= |pages|
    && (forall i {:trigger Entry(m, pages[i], 0)} :: 0 <= i < k ==> Entry(m, pages[i], 0) == Link(pages, i, head))
    && (forall w {:trigger m[w]} :: 0 <= w < |m| && (forall i :: 0 <= i < k ==> w != pages[i] / 8) ==> m[w] == m0[w])
  }

  lemma NothingLinked(m: seq<Word>, pages: seq<nat>, head: nat)
    ensures Relinked(m, m, pages, 0, head)
  {}

  lemma ListBefore(m: seq<Word>, roots: set<nat>, head: nat, free: seq<nat>)
    requires StateOk(m, roots, head, free)
    ensures FreeList(m, head, free)
  {}

  lemma LinkNext(m0: seq<Word>, m: seq<Word>, pages: seq<nat>, k: nat, head: nat, link: Word)
    requires WholePages(m0, pages) && Relinked(m0, m, pages, k, head) && k < |pages| && link == Link(pages, k, head)
    ensures pages[k] / 8 < |m|
    ensures Relinked(m0, m[pages[k] / 8 := link], pages, k + 1, head)
  {
    var m2 := m[pages[k] / 8 := link];
    forall i | 0 <= i < k + 1 ensures Entry(m2, pages[i], 0) == Link(pages, i, head) {
      if i < k {
        PagesApart(pages[i], 0, pages[k]);
        assert Entry(m, pages[i], 0) == Link(pages, i, head);
        assert pages[i] / 8 != pages[k] / 8;
      }
    }
  }

  /** A word of a page other than these, or not the first of its page, is unchanged. */
  lemma Unlinked(m0: seq<Word>, m: seq<Word>, pages: seq<nat>, head: nat, a: nat, i: nat)
    requires WholePages(m0, pages) && Relinked(m0, m, pages, |pages|, head)
    requires a % 4096 == 0 && i < 512 && (a !in pages || i > 0)
    ensures Entry(m, a, i) == Entry(m0, a, i)
  {
    forall j | 0 <= j < |pages| ensures a / 8 + i != pages[j] / 8 {
      if a / 8 + i == pages[j] / 8 + 0 { SlotsDiffer(a, i, pages[j], 0); }
    }
  }

  /** The pages can be given to the allocator: none is page 0, a table or already free. */
  ghost predicate Givable(m: seq<Word>, roots: set<nat>, free: seq<nat>, pages: seq<nat>) {
    forall i :: 0 <= i < |pages| ==> pages[i] != 0 && NotATable(m, roots, pages[i]) && pages[i] !in free
  }

  lemma ListsJoin(m0: seq<Word>, m: seq<Word>, pages: seq<nat>, head: nat, free: seq<nat>)
    requires FreeList(m0, head, free) && WholePages(m0, pages) && Relinked(m0, m, pages, |pages|, head) && pages != []
    requires forall i :: 0 <= i < |pages| ==> pages[i] != 0 && pages[i] !in free
    ensures FreeList(m, pages[0], pages + free)
  {
    var n, all := |pages|, pages + free;
    forall i | 0 <= i < |all| ensures PageAt(m, all[i]) && Entry(m, all[i], 0) == Link(all, i, 0) {
      if i < n {
        assert Entry(m, pages[i], 0) == Link(pages, i, head);
      } else {
        assert PageAt(m0, free[i - n]) && Entry(m0, free[i - n], 0) == Link(free, i - n, 0);
        Unlinked(m0, m, pages, head, free[i - n], 0);
      }
    }
  }

  lemma TreesUntouched(m0: seq<Word>, m: seq<Word>, roots: set<nat>, pages: seq<nat>, head: nat)
    requires TreesOk(m0, roots) && WholePages(m0, pages) && Relinked(m0, m, pages, |pages|, head)
    requires forall i :: 0 <= i < |pages| ==> NotATable(m0, roots, pages[i])
    ensures TreesOk(m, roots) && SameTrees(m0, m, roots)
  {
    forall r, q, i: nat | r in roots && ValidPath(q) && TableAt(m0, r, q).Some? && i < 512
      ensures Entry(m, TableAt(m0, r, q).value, i) == Entry(m0, TableAt(m0, r, q).value, i)
    {
      assert PageAt(m0, TableAt(m0, r, q).value);
      Unlinked(m0, m, pages, head, TableAt(m0, r, q).value, i);
    }
    OutsideTables(m0, m, roots);
  }

  /** With givable pages, they and the old list form one list, outside all trees. */
  lemma Prepend(m0: seq<Word>, m: seq<Word>, roots: set<nat>, head: nat, free: seq<nat>, pages: seq<nat>)
    requires StateOk(m0, roots, head, free) && WholePages(m0, pages) && pages != []
    requires Relinked(m0, m, pages, |pages|, head) && Givable(m0, roots, free, pages)
    ensures StateOk(m, roots, pages[0], pages + free) && SameTrees(m0, m, roots)
  {
    ListsJoin(m0, m, pages, head, free);
    TreesUntouched(m0, m, roots, pages, head);
    hide Relinked, FreeList, TreesOk;
    var all := pages + free;
    forall i | 0 <= i < |all| ensures NotATable(m, roots, all[i]) {
      assert NotATable(m0, roots, all[i]);
    }
  }

  /** Tables above the first page of the region on a path are as they were, so that page is still
      a table. */
  lemma {:induction false} StillATable(m0: seq<Word>, m: seq<Word>, roots: set<nat>, pages: seq<nat>, head: nat,
                                       r: nat, q: Path)
    requires TreesOk(m0, roots) && WholePages(m0, pages) && Relinked(m0, m, pages, |pages|, head)
    requires r in roots && ValidPath(q) && TableAt(m0, r, q).Some?
    requires forall k :: 0 <= k < |q| ==> TableAt(m0, r, q[..k]).Some? && TableAt(m0, r, q[..k]).value !in pages
    ensures TableAt(m, r, q) == TableAt(m0, r, q)
    decreases |q|
  {
    if q != [] {
      var k := |q| - 1;
      assert forall j :: 0 <= j < k ==> q[..k][..j] == q[..j];
      StillATable(m0, m, roots, pages, head, r, q[..k]);
      assert PageAt(m0, TableAt(m0, r, q[..k]).value);
      Unlinked(m0, m, pages, head, TableAt(m0, r, q[..k]).value, q[k]);
    }
  }

  lemma {:induction false} FirstTable(m0: seq<Word>, pages: seq<nat>, r: nat, q: Path) returns (p: Path)
    requires ValidPath(q) && TableAt(m0, r, q).Some? && TableAt(m0, r, q).value in pages
    ensures p <= q && TableAt(m0, r, p).Some? && TableAt(m0, r, p).value in pages
    ensures forall k :: 0 <= k < |p| ==> TableAt(m0, r, p[..k]).Some? && TableAt(m0, r, p[..k]).value !in pages
    decreases |q|
  {
    if k :| 0 <= k < |q| && TableAt(m0, r, q[..k]).Some? && TableAt(m0, r, q[..k]).value in pages {
      p := FirstTable(m0, pages, r, q[..k]);
    } else {
      p := q;
      forall k | 0 <= k < |q| ensures TableAt(m0, r, q[..k]).Some? { TablePrefix(m0, r, q, k); }
    }
  }

  /** With any other pages the result is not in order. */
  lemma PrependFails(m0: seq<Word>, m: seq<Word>, roots: set<nat>, head: nat, free: seq<nat>, pages: seq<nat>)
    requires StateOk(m0, roots, head, free) && WholePages(m0, pages)
    requires Relinked(m0, m, pages, |pages|, head) && !Givable(m0, roots, free, pages)
    ensures !StateOk(m, roots, pages[0], pages + free)
  {
    var all, n := pages + free, |pages|;
    var i :| 0 <= i < n && !(pages[i] != 0 && NotATable(m0, roots, pages[i]) && pages[i] !in free);
    assert all[i] == pages[i];
    if pages[i] == 0 {
      assert !PageAt(m, all[i]);
    } else if pages[i] in free {
      var j :| 0 <= j < |free| && free[j] == pages[i];
      assert all[n + j] == all[i];
    } else {
      var r, q :| r in roots && ValidPath(q) && TableAt(m0, r, q) == Some(pages[i]);
      var p := FirstTable(m0, pages, r, q);
      StillATable(m0, m, roots, pages, head, r, p);
      var j :| 0 <= j < n && pages[j] == TableAt(m0, r, p).value;
      assert all[j] == pages[j] && !NotATable(m, roots, all[j]);
    }
  }

  /** After k rounds the pointer of `get_free_pages` is one page before its end pointer. */
  predicate AtEnd(base: nat, size: nat, k: nat) {
    (base + 4096 * (k + 1)) % 0x1_0000_0000_0000_0000 == (base + size) % 0x1_0000_0000_0000_0000
  }

  /** In 64-bit arithmetic the loop of `get_free_pages` meets its end pointer exactly when the
      size is a multiple of the page size; any other size makes it run on for ever. */
  lemma LoopMeetsEnd(base: nat, size: nat)
    requires base < 0x1_0000_0000_0000_0000 && 0 < size < 0x1_0000_0000_0000_0000
    ensures (exists k: nat :: AtEnd(base, size, k)) <==> size % 4096 == 0
  {
    if size % 4096 == 0 {
      var k := size / 4096 - 1;
      assert AtEnd(base, size, k);
    }
    forall k: nat | AtEnd(base, size, k)
      ensures size % 4096 == 0
    {
      CongruentMultiple(base + size, base + 4096 * (k + 1), size - 4096 * (k + 1));
    }
  }

  lemma CongruentMultiple(x: nat, y: nat, d: int)
    requires x % 0x1_0000_0000_0000_0000 == y % 0x1_0000_0000_0000_0000 && d == x - y
    ensures d % 4096 == 0
  {
    var a, b := x / 0x1_0000_0000_0000_0000, y / 0x1_0000_0000_0000_0000;
    var k := 0x10_0000_0000_0000 * (a - b);
    DivModUnique(d, 4096, k, 0);
  }

  predicate FullPath(v: Path) {
    |v| == 4 && forall i :: 0 <= i < 4 ==> v[i] < 512
  }

  lemma PrefixValid(v: Path, k: nat)
    requires FullPath(v) && k <= 3
    ensures ValidPath(v[..k])
  {}

  // ----- descending towards the table that holds an entry

  /** How many of the first k tables on path v do not exist. */
  function Missing(m: seq<Word>, r: nat, v: Path, k: nat): nat
    requires k <= |v|
  {
    if k == 0 then 0 else Missing(m, r, v, k - 1) + (if TableAt(m, r, v[..k]).None? then 1 else 0)
  }

  /** No large page is in the way of the first k steps of path v. */
  ghost predicate PathClear(m: seq<Word>, r: nat, v: Path, k: nat)
    requires k <= |v|
  {
    forall d {:trigger LargeAt(m, r, v[..d], v[d])} :: 0 <= d < k ==> !LargeAt(m, r, v[..d], v[d])
  }

  /** Every large page of tree c above the 4 KiB level was there before, or is entry s. */
  ghost predicate NoNewLarge(m0: seq<Word>, m: seq<Word>, c: nat, s: Path) {
    forall q, i: nat {:trigger LargeAt(m, c, q, i)} ::
      ValidPath(q) && |q| < 3 && i < 512 && LargeAt(m, c, q, i) ==> LargeAt(m0, c, q, i) || q + [i] == s
  }

  /** The trees of m are those of m0, with the tables on v[..d] of tree c added where missing. */
  ghost predicate Extends(m0: seq<Word>, m: seq<Word>, roots: set<nat>, c: nat, v: Path, d: nat)
    requires d <= |v|
  {
    forall r, q {:trigger TableAt(m, r, q)} {:trigger TableAt(m0, r, q)} :: r in roots && ValidPath(q) ==>
      if r == c && q <= v[..d]
      then TableAt(m, r, q).Some? && (TableAt(m0, r, q).Some? ==> TableAt(m, r, q) == TableAt(m0, r, q))
      else TableAt(m, r, q) == TableAt(m0, r, q)
  }

  /** Word i lies in one of the tables on v[..d]. */
  ghost predicate OnPath(m: seq<Word>, c: nat, v: Path, d: nat, i: nat)
    requires d <= |v|
  {
    exists k :: 0 <= k <= d && TableAt(m, c, v[..k]).Some? && InPage(TableAt(m, c, v[..k]).value, i)
  }

  ghost predicate ChangedOnPath(m0: seq<Word>, m: seq<Word>, c: nat, v: Path, d: nat)
    requires d <= |v|
  {
    |m| == |m0| && forall i :: 0 <= i < |m| && m[i] != m0[i] ==> OnPath(m, c, v, d, i)
  }

  /** What holds when the loop of `install_pte`, started in m0, has reached depth d. */
  ghost predicate Descending(m0: seq<Word>, m: seq<Word>, roots: set<nat>, c: nat, v: Path, d: nat, pt: nat)
    requires d <= |v|
  {
    && TableAt(m, c, v[..d]) == Some(pt)
    && Extends(m0, m, roots, c, v, d)
    && SameWalksOf(m0, m, roots)
    && ChangedOnPath(m0, m, c, v, d)
    && NoNewLarge(m0, m, c, [])
    && (if TableAt(m0, c, v[..d]).Some? then m == m0 else ZeroPage(m, pt))
  }

  lemma DescendHere(m: seq<Word>, roots: set<nat>, c: nat, v: Path, d: nat)
    requires d <= |v| && TableAt(m, c, v[..d]).Some?
    ensures Descending(m, m, roots, c, v, d, TableAt(m, c, v[..d]).value)
  {
    forall q | ValidPath(q) && q <= v[..d] ensures TableAt(m, c, q).Some? {
      assert q == v[..d][..|q|];
      TablePrefix(m, c, v[..d], |q|);
    }
  }

  /** An existing table on the path: nothing is written. */
  lemma DescendLinked(m0: seq<Word>, m: seq<Word>, roots: set<nat>, c: nat, v: Path, d: nat, pt: nat)
    requires d < |v| && Descending(m0, m, roots, c, v, d, pt) && v[d] < 512
    requires PathClear(m0, c, v, d + 1) && Present(Entry(m, pt, v[d]))
    ensures Descending(m0, m, roots, c, v, d + 1, Frame(Entry(m, pt, v[d])))
    ensures Missing(m0, c, v, d + 1) == Missing(m0, c, v, d)
  {
    assert v[..d + 1][..d] == v[..d];
    assert m == m0;
    assert !LargeAt(m0, c, v[..d], v[d]);
    assert TableAt(m, c, v[..d + 1]) == Some(Frame(Entry(m, pt, v[d])));
    DescendHere(m, roots, c, v, d + 1);
  }

  lemma PrefixSplit(q: Path, s: Path)
    requires s != [] && q <= s
    ensures q == s || q <= s[..|s| - 1]
  {
    if q != s { assert q == s[..|s| - 1][..|q|]; }
  }

  lemma LinkExtends(m0: seq<Word>, m: seq<Word>, m2: seq<Word>, roots: set<nat>, c: nat, v: Path, d: nat, x: nat)
    requires d < 3 && FullPath(v) && c in roots
    requires Extends(m0, m, roots, c, v, d) && TablesAfter(m, m2, roots, c, v[..d + 1], Some(x))
    requires TableAt(m, c, v[..d + 1]).None?
    ensures Extends(m0, m2, roots, c, v, d + 1)
    ensures TableAt(m0, c, v[..d + 1]).None?
  {
    var s := v[..d + 1];
    assert s[..d] == v[..d];
    forall r, q | r in roots && ValidPath(q)
      ensures if r == c && q <= s
              then TableAt(m2, r, q).Some? && (TableAt(m0, r, q).Some? ==> TableAt(m2, r, q) == TableAt(m0, r, q))
              else TableAt(m2, r, q) == TableAt(m0, r, q)
    {
      if r == c && q <= s {
        PrefixSplit(q, s);
      } else if r == c && s <= q {
        assert q[..d + 1] == s;
        NothingBelow(m0, c, q, d + 1);
      }
    }
  }

  lemma OnPathStays(m: seq<Word>, m2: seq<Word>, c: nat, v: Path, d: nat, e: nat, i: nat)
    requires d <= e <= |v| && OnPath(m, c, v, d, i)
    requires forall k :: 0 <= k <= d ==> TableAt(m2, c, v[..k]) == TableAt(m, c, v[..k])
    ensures OnPath(m2, c, v, e, i)
  {
    var k :| 0 <= k <= d && TableAt(m, c, v[..k]).Some? && InPage(TableAt(m, c, v[..k]).value, i);
    assert TableAt(m2, c, v[..k]) == TableAt(m, c, v[..k]);
  }

  lemma StoreChangesPath(m0: seq<Word>, m: seq<Word>, m2: seq<Word>, c: nat, v: Path, d: nat, e: nat, slot: nat, x: nat)
    requires d <= e <= |v| && ChangedOnPath(m0, m, c, v, d) && SameExcept(m, m2, slot, x)
    requires forall k :: 0 <= k <= d ==> TableAt(m2, c, v[..k]) == TableAt(m, c, v[..k])
    requires OnPath(m2, c, v, e, slot)
    requires forall i :: InPage(x, i) && 0 <= i < |m| ==> OnPath(m2, c, v, e, i)
    ensures ChangedOnPath(m0, m2, c, v, e)
  {
    forall i | 0 <= i < |m2| && m2[i] != m0[i] ensures OnPath(m2, c, v, e, i) {
      if i != slot && !InPage(x, i) {
        OnPathStays(m, m2, c, v, d, e, i);
      }
    }
  }

  lemma SevenAbovePage(x: nat, k: nat)
    requires x == 4096 * k
    ensures x % 8 == 0 && (x + 7) % 2 == 1 && (x + 7) % 8 == 7 && (x + 7) % 4096 == 7 && (x + 7) / 128 % 2 == 0
  {
    DivModUnique(x, 8, 512 * k, 0);
    DivModUnique(x + 7, 2, 2048 * k + 3, 1);
    DivModUnique(x + 7, 8, 512 * k, 7);
    DivModUnique(x + 7, 4096, k, 7);
    DivModUnique(x + 7, 128, 32 * k, 7);
    DivModUnique(32 * k, 2, 16 * k, 0);
  }

  lemma SmallMod(x: nat, m: nat)
    requires x < m
    ensures x % m == x
  {}

  lemma LinkWord(x: nat)
    requires x % 4096 == 0 && x + 4096 <= PHYS_LIMIT
    ensures TableFlags(x) == x + 7 && Links(x + 7) && Frame(x + 7) == x && (x + 7) % 8 == 7
  {
    hide TableFlags;
    SevenAbovePage(x, x / 4096);
    SmallMod(x + 7, PHYS_LIMIT);
    TableFlagsMeaning(x);
  }

  /** A missing table on the path: page x is zeroed and linked. */
  lemma DescendNew(m0: seq<Word>, m: seq<Word>, m2: seq<Word>, roots: set<nat>, c: nat, v: Path, d: nat,
                   pt: nat, x: nat)
    requires TreesOk(m, roots) && d < 3 && FullPath(v)
    requires Descending(m0, m, roots, c, v, d, pt) && !Present(Entry(m, pt, v[d]))
    requires StoresEntry(m, m2, roots, c, v[..d], v[d], x, x + 7) && Links(x + 7) && Frame(x + 7) == x
    ensures TreesOk(m2, roots) && TablesAfter(m, m2, roots, c, v[..d + 1], Some(x))
    ensures Descending(m0, m2, roots, c, v, d + 1, x)
    ensures Missing(m0, c, v, d + 1) == Missing(m0, c, v, d) + 1
  {
    var s := v[..d + 1];
    assert v[..d] + [v[d]] == s;
    assert s[..d] == v[..d];
    StoreKeepsTrees(m, m2, roots, c, v[..d], v[d], x, x + 7);
    LinkExtends(m0, m, m2, roots, c, v, d, x);
    forall r, va: nat | r in roots ensures Translate(m2, r, va) == Translate(m0, r, va) {
      LinkKeepsWalks(m, m2, roots, c, v[..d], v[d], x, x + 7, r, va);
    }
    forall q, i: nat | ValidPath(q) && |q| < 3 && i < 512 && LargeAt(m2, c, q, i) ensures LargeAt(m0, c, q, i) {
      StoreNoLarge(m, m2, roots, c, v[..d], v[d], x, x + 7, c, q, i);
    }
    NewTableOnPath(m0, m, m2, roots, c, v, d, pt, x);
  }

  lemma NewTableOnPath(m0: seq<Word>, m: seq<Word>, m2: seq<Word>, roots: set<nat>, c: nat, v: Path, d: nat, pt: nat,
                       x: nat)
    requires d < 3 && FullPath(v) && c in roots
    requires ChangedOnPath(m0, m, c, v, d) && TableAt(m, c, v[..d]) == Some(pt)
    requires SameExcept(m, m2, pt / 8 + v[d], x)
    requires TablesAfter(m, m2, roots, c, v[..d + 1], Some(x))
    ensures ChangedOnPath(m0, m2, c, v, d + 1)
  {
    var s := v[..d + 1];
    forall k | 0 <= k <= d ensures TableAt(m2, c, v[..k]) == TableAt(m, c, v[..k]) {
      PrefixValid(v, k);
      assert !(s <= v[..k]);
    }
    assert TableAt(m2, c, s) == Some(x);
    assert InPage(pt, pt / 8 + v[d]);
    StoreChangesPath(m0, m, m2, c, v, d, d + 1, pt / 8 + v[d], x);
  }

  /** Storing into a table keeps the free list, apart from a page that became a table. */
  lemma StoreKeepsFree(m: seq<Word>, m1: seq<Word>, m2: seq<Word>, roots: set<nat>, head: nat, free: seq<nat>, pt: nat,
                       c: nat, s: Path, child: Option<nat>)
    requires FreeList(m1, head, free) && FreeIsNoTable(m, roots, free)
    requires pt % 4096 == 0 && SameOutside(m1, m2, pt) && pt !in free
    requires TablesAfter(m, m2, roots, c, s, child) && (child.Some? ==> child.value !in free)
    ensures FreeList(m2, head, free) && FreeIsNoTable(m2, roots, free)
  {
    WriteOutsideFree(m1, m2, head, free, pt);
    forall i | 0 <= i < |free| ensures NotATable(m2, roots, free[i]) {
      assert NotATable(m, roots, free[i]);
    }
  }

  lemma NewTableStep(m0: seq<Word>, m: seq<Word>, m1: seq<Word>, m2: seq<Word>, roots: set<nat>,
                     head: nat, free: seq<nat>, c: nat, v: Path, d: nat, pt: nat, x: Word)
    requires TreesOk(m, roots) && FreeIsNoTable(m, roots, free) && FreeList(m1, head, free)
    requires d < 3 && FullPath(v) && c in roots
    requires Descending(m0, m, roots, c, v, d, pt) && !Present(Entry(m, pt, v[d])) && pt !in free
    requires PageAt(m, x) && NotATable(m, roots, x) && x !in free && ZeroPage(m1, x) && SameOutside(m, m1, x)
    requires PageAt(m, pt) && m2 == m1[pt / 8 + v[d] := x + 7]
    ensures StateOk(m2, roots, head, free) && Entry(m2, pt, v[d]) == x + 7
    ensures Descending(m0, m2, roots, c, v, d + 1, x)
    ensures Missing(m0, c, v, d + 1) == Missing(m0, c, v, d) + 1
  {
    LinkWord(x);
    assert v[d] == v[..d + 1][d];
    assert pt != x;
    forall i: nat | i < 512 ensures Entry(m2, x, i) == 0 {
      PagesApart(x, i, pt);
      assert Entry(m1, x, i) == 0;
    }
    DescendNew(m0, m, m2, roots, c, v, d, pt, x);
    StoreKeepsFree(m, m1, m2, roots, head, free, pt, c, v[..d + 1], Some(x));
  }

  /** The trees after an entry at depth d of path v of tree c was stored: the tables on the
      way exist, the tables below the entry are gone, and all others are as in m0. */
  ghost predicate InstalledTables(m0: seq<Word>, m: seq<Word>, roots: set<nat>, c: nat, v: Path, d: nat)
    requires d < |v|
  {
    forall r, q {:trigger TableAt(m, r, q)} {:trigger TableAt(m0, r, q)} :: r in roots && ValidPath(q) ==>
      if r == c && q <= v[..d]
      then TableAt(m, r, q).Some? && (TableAt(m0, r, q).Some? ==> TableAt(m, r, q) == TableAt(m0, r, q))
      else if r == c && v[..d + 1] <= q then TableAt(m, r, q).None?
      else TableAt(m, r, q) == TableAt(m0, r, q)
  }

  /** The entry translates its own addresses and every other translation is as in m0. */
  ghost predicate InstalledWalks(m0: seq<Word>, m: seq<Word>, roots: set<nat>, c: nat, v: Path, d: nat, e: nat)
    requires d <= 3 && d < |v|
  {
    forall r, va: nat {:trigger Translate(m, r, va)} :: r in roots ==>
      Translate(m, r, va)
      == if r == c && v[..d + 1] <= PathOf(va) then EndOfWalk(4 - d, e, va) else Translate(m0, r, va)
  }

  lemma LeafTables(m0: seq<Word>, m: seq<Word>, m2: seq<Word>, roots: set<nat>, c: nat, v: Path, d: nat)
    requires d < |v| && Extends(m0, m, roots, c, v, d) && TablesAfter(m, m2, roots, c, v[..d + 1], None)
    ensures InstalledTables(m0, m2, roots, c, v, d)
  {}

  lemma LeafStep(m0: seq<Word>, m: seq<Word>, m2: seq<Word>, roots: set<nat>, head: nat, free: seq<nat>,
                 c: nat, v: Path, d: nat, pt: nat, e: Word)
    requires StateOk(m, roots, head, free) && c in roots
    requires d <= 3 && FullPath(v) && !(d < 3 && Links(e))
    requires Descending(m0, m, roots, c, v, d, pt) && PageAt(m, pt) && m2 == m[pt / 8 + v[d] := e]
    ensures StateOk(m2, roots, head, free) && TableAt(m2, c, v[..d]) == Some(pt)
    ensures InstalledTables(m0, m2, roots, c, v, d) && InstalledWalks(m0, m2, roots, c, v, d, e)
    ensures ChangedOnPath(m0, m2, c, v, d) && NoNewLarge(m0, m2, c, v[..d + 1])
  {
    var s := v[..d + 1];
    assert v[..d] + [v[d]] == s;
    assert NotATable(m, roots, 0);
    assert StoresEntry(m, m2, roots, c, v[..d], v[d], 0, e);
    StoreKeepsTrees(m, m2, roots, c, v[..d], v[d], 0, e);
    LeafTables(m0, m, m2, roots, c, v, d);
    StoreKeepsFree(m, m, m2, roots, head, free, pt, c, s, None);
    forall r, va: nat | r in roots
      ensures Translate(m2, r, va)
           == if r == c && s <= PathOf(va) then EndOfWalk(4 - d, e, va) else Translate(m0, r, va)
    {
      if r == c && s <= PathOf(va) {
        LeafWalks(m, m2, roots, c, v[..d], v[d], 0, e, va);
      } else {
        OtherWalks(m, m2, roots, c, v[..d], v[d], 0, r, va);
      }
    }
    forall q, i: nat | ValidPath(q) && |q| < 3 && i < 512 && LargeAt(m2, c, q, i) && q + [i] != s
      ensures LargeAt(m0, c, q, i)
    {
      StoreNoLarge(m, m2, roots, c, v[..d], v[d], 0, e, c, q, i);
    }
    LeafOnPath(m0, m, m2, roots, c, v, d, pt);
  }

  lemma LeafOnPath(m0: seq<Word>, m: seq<Word>, m2: seq<Word>, roots: set<nat>, c: nat, v: Path, d: nat, pt: nat)
    requires d <= 3 && FullPath(v) && c in roots
    requires ChangedOnPath(m0, m, c, v, d) && TableAt(m, c, v[..d]) == Some(pt)
    requires |m| == |m2| && forall i :: 0 <= i < |m| && i != pt / 8 + v[d] ==> m2[i] == m[i]
    requires TablesAfter(m, m2, roots, c, v[..d + 1], None)
    ensures ChangedOnPath(m0, m2, c, v, d) && TableAt(m2, c, v[..d]) == Some(pt)
  {
    forall k | 0 <= k <= d ensures TableAt(m2, c, v[..k]) == TableAt(m, c, v[..k]) {
      PrefixValid(v, k);
      assert !(v[..d + 1] <= v[..k]);
    }
    var slot := pt / 8 + v[d];
    assert InPage(pt, slot);
    forall i | 0 <= i < |m2| && m2[i] != m0[i] ensures OnPath(m2, c, v, d, i) {
      if i != slot {
        OnPathStays(m, m2, c, v, d, d, i);
      }
    }
  }

  /** A table reached by the loop whose next entry is absent needs a new table below it. */
  lemma AbsentIsMissing(m0: seq<Word>, m: seq<Word>, roots: set<nat>, c: nat, v: Path, d: nat, pt: nat)
    requires d < 3 && FullPath(v) && c in roots && Descending(m0, m, roots, c, v, d, pt)
    requires !Present(Entry(m, pt, v[d]))
    ensures Missing(m0, c, v, d + 1) == Missing(m0, c, v, d) + 1
  {
    var s := v[..d + 1];
    assert s[..d] == v[..d] && !(s <= v[..d]);
    assert TableAt(m, c, s).None?;
  }

  lemma NoneMissing(m: seq<Word>, c: nat, v: Path, d: nat)
    requires d <= |v| && Missing(m, c, v, d) == 0
    ensures TableAt(m, c, v[..d]).Some?
  {
    assert v[..0] == [];
  }

  lemma {:induction false} MissingGrows(m: seq<Word>, c: nat, v: Path, d: nat, k: nat)
    requires d <= k <= |v|
    ensures Missing(m, c, v, d) <= Missing(m, c, v, k)
  {
    if d < k { MissingGrows(m, c, v, d, k - 1); }
  }

  /** Free pages taken for `missing` tables when the caller offers `ptPage` for the first. */
  function Taken(missing: nat, ptPage: nat): nat {
    if ptPage == 0 || missing == 0 then missing else missing - 1
  }

  /** What is left of the free list and of the caller's page after d steps from free0 and ptPage. */
  ghost predicate Supply(m0: seq<Word>, c: nat, v: Path, d: nat, free0: seq<nat>, ptPage: nat,
                         free: seq<nat>, page: nat)
    requires d <= |v|
  {
    var missing := Missing(m0, c, v, d);
    && Taken(missing, ptPage) <= |free0|
    && free == free0[Taken(missing, ptPage)..]
    && page == if missing == 0 then ptPage else 0
  }

  lemma PathTable(m: seq<Word>, roots: set<nat>, c: nat, v: Path, d: nat)
    requires TablesArePages(m, roots) && c in roots && d <= 3 && FullPath(v)
    requires TableAt(m, c, v[..d]).Some?
    ensures PageAt(m, TableAt(m, c, v[..d]).value)
  {
    PrefixValid(v, d);
  }

  /** Where a table is missing there is a page for it. */
  lemma PageReady(m0: seq<Word>, m: seq<Word>, roots: set<nat>, c: nat, v: Path, d: nat, pt: nat,
                  free0: seq<nat>, ptPage: nat, free: seq<nat>, page: nat)
    requires d < 3 && FullPath(v) && c in roots
    requires Descending(m0, m, roots, c, v, d, pt) && !Present(Entry(m, pt, v[d]))
    requires Supply(m0, c, v, d, free0, ptPage, free, page)
    requires Taken(Missing(m0, c, v, d + 1), ptPage) <= |free0|
    requires ptPage != 0 ==> PageAt(m0, ptPage) && NotATable(m0, roots, ptPage) && ptPage !in free0
    ensures if page == 0 then free != [] else PageAt(m, page) && NotATable(m, roots, page) && page !in free
    ensures Supply(m0, c, v, d + 1, free0, ptPage, if page == 0 then free[1..] else free, 0)
  {
    AbsentIsMissing(m0, m, roots, c, v, d, pt);
    if Missing(m0, c, v, d) == 0 { NoneMissing(m0, c, v, d); }
  }

  // ----- running out of pages

  /** The list ran dry at depth k of a descent in the well-formed memory m1: the entry there links
      page 0, and apart from that only page 0 has been written. */
  ghost predicate DryLink(m1: seq<Word>, m: seq<Word>, roots: set<nat>, c: nat, v: Path, k: nat) {
    && k < 3 && FullPath(v) && c in roots && TreesOk(m1, roots) && TableAt(m1, c, v[..k]).Some?
    && SameExcept(m1, m, TableAt(m1, c, v[..k]).value / 8 + v[k], 0)
    && Entry(m, TableAt(m1, c, v[..k]).value, v[k]) == TableFlags(0)
  }

  /** Page 0 holds nothing but links to itself. */
  ghost predicate OnlySelfLinks(m: seq<Word>) {
    forall i: nat :: i < 512 ==> Entry(m, 0, i) == 0 || Entry(m, 0, i) == TableFlags(0)
  }

  /** With such a link the tables are no longer whole pages of the heap. */
  lemma DryBreaks(m1: seq<Word>, m: seq<Word>, roots: set<nat>, c: nat, v: Path, k: nat)
    requires DryLink(m1, m, roots, c, v, k)
    ensures TableAt(m, c, v[..k + 1]) == Some(0) && !TablesArePages(m, roots)
  {
    PrefixValid(v, k);
    PrefixValid(v, k + 1);
    assert NotATable(m1, roots, 0);
    TableStable(m1, m, roots, c, v[..k], v[k], 0, c, v[..k]);
    LinkWord(0);
    assert v[..k + 1][..k] == v[..k];
  }

  /** Writes to page 0 leave the link in place. */
  lemma DryStays(m1: seq<Word>, m: seq<Word>, m2: seq<Word>, roots: set<nat>, c: nat, v: Path, k: nat)
    requires DryLink(m1, m, roots, c, v, k) && SameOutside(m, m2, 0)
    ensures DryLink(m1, m2, roots, c, v, k)
  {
    hide TableFlags;
    PathTable(m1, roots, c, v, k);
    PagesApart(TableAt(m1, c, v[..k]).value, v[k], 0);
  }

  /** The round in which the list runs dry. */
  lemma DryStarts(m: seq<Word>, mz: seq<Word>, m2: seq<Word>, roots: set<nat>, c: nat, v: Path, k: nat, pt: nat)
    requires TreesOk(m, roots) && k < 3 && FullPath(v) && c in roots && TableAt(m, c, v[..k]) == Some(pt)
    requires SameOutside(m, mz, 0) && ZeroPage(mz, 0) && pt / 8 + v[k] < |mz| && TableFlags(0) < 0x1_0000_0000_0000_0000
    requires m2 == mz[pt / 8 + v[k] := TableFlags(0)]
    ensures DryLink(m, m2, roots, c, v, k) && OnlySelfLinks(m2)
  {
    hide TableFlags;
    PathTable(m, roots, c, v, k);
    PagesApart(pt, v[k], 0);
    forall i: nat | i < 512 ensures Entry(m2, 0, i) == 0 { assert Entry(mz, 0, i) == 0; }
  }

  /** A round on page 0 that finds no entry. */
  lemma DryGoesOn(m1: seq<Word>, m: seq<Word>, mz: seq<Word>, m2: seq<Word>, roots: set<nat>, c: nat, v: Path, k: nat,
                  i: nat)
    requires DryLink(m1, m, roots, c, v, k) && SameOutside(m, mz, 0) && ZeroPage(mz, 0) && i < 512 && i < |mz|
    requires TableFlags(0) < 0x1_0000_0000_0000_0000 && m2 == mz[i := TableFlags(0)]
    ensures DryLink(m1, m2, roots, c, v, k) && OnlySelfLinks(m2)
  {
    hide TableFlags;
    assert SameOutside(m, m2, 0);
    DryStays(m1, m, m2, roots, c, v, k);
    forall j: nat | j < 512 ensures Entry(m2, 0, j) == 0 || Entry(m2, 0, j) == TableFlags(0) {
      assert Entry(mz, 0, j) == 0;
    }
  }

  /** Where a table is missing and the supply does not reach, there is neither a page on the list
      nor one from the caller. */
  lemma NoPageLeft(m0: seq<Word>, m: seq<Word>, roots: set<nat>, c: nat, v: Path, d: nat, pt: nat,
                   free0: seq<nat>, ptPage: nat, free: seq<nat>, page: nat)
    requires d < 3 && FullPath(v) && c in roots
    requires Descending(m0, m, roots, c, v, d, pt) && !Present(Entry(m, pt, v[d]))
    requires Supply(m0, c, v, d, free0, ptPage, free, page)
    requires Taken(Missing(m0, c, v, d + 1), ptPage) > |free0|
    ensures page == 0 && free == []
  {
    AbsentIsMissing(m0, m, roots, c, v, d, pt);
  }

  lemma ClearSoFar(m: seq<Word>, c: nat, v: Path, d: nat, k: nat)
    requires d <= k <= |v| && PathClear(m, c, v, k)
    ensures PathClear(m, c, v, d)
  {}

  lemma FlagsFit(x: Word)
    ensures TableFlags(x) < 0x1_0000_0000_0000_0000
  {
    TableFlagsMeaning(x);
  }

  /** A memory with a tree in it has a page 0 beside it. */
  lemma MemoryHasPageZero(m: seq<Word>, roots: set<nat>, c: nat, v: Path, dry: bool, m1: seq<Word>, k: nat)
    requires c in roots && if dry then DryLink(m1, m, roots, c, v, k) else TreesOk(m, roots)
    ensures |m| >= 512
  {
    var n := if dry then m1 else m;
    assert TableAt(n, c, []) == Some(c) && ValidPath([]);
    assert PageAt(n, c);
  }

  /** The descent of `install_pte` in m0 at depth d: either it is at the table of that depth, or
      the list ran dry at depth k in memory m1, and it is on page 0. */
  ghost predicate DescentAt(m: seq<Word>, roots: set<nat>, head: nat, free: seq<nat>, m0: seq<Word>, c: nat, v: Path,
                            d: nat, free0: seq<nat>, ptPage: nat, pt: nat, page: nat,
                            dry: bool, m1: seq<Word>, k: nat)
    requires d <= |v|
  {
    if dry then
      && DryLink(m1, m, roots, c, v, k) && OnlySelfLinks(m) && k < d
      && pt == 0 && page == 0 && head == 0 && Taken(Missing(m0, c, v, k + 1), ptPage) > |free0|
    else
      && StateOk(m, roots, head, free)
      && Descending(m0, m, roots, c, v, d, pt) && Supply(m0, c, v, d, free0, ptPage, free, page)
  }

  lemma TableNotFree(m: seq<Word>, roots: set<nat>, c: nat, v: Path, d: nat, free: seq<nat>)
    requires FreeIsNoTable(m, roots, free) && c in roots && d <= 3 && FullPath(v) && TableAt(m, c, v[..d]).Some?
    ensures TableAt(m, c, v[..d]).value !in free
  {
    PrefixValid(v, d);
  }

  /** A round that takes page x, which can be had, for the new table. */
  lemma ReadyRound(m0: seq<Word>, m: seq<Word>, mx: seq<Word>, m2: seq<Word>, roots: set<nat>,
                   head: nat, free: seq<nat>, c: nat, v: Path, d: nat, free0: seq<nat>, ptPage: nat, pt: nat, x: Word)
    requires TreesOk(m, roots) && d < 3 && FullPath(v) && c in roots && TableFlags(x) < 0x1_0000_0000_0000_0000
    requires Descending(m0, m, roots, c, v, d, pt) && !Present(Entry(m, pt, v[d])) && pt !in free
    requires Supply(m0, c, v, d + 1, free0, ptPage, free, 0)
    requires FreeList(mx, head, free) && FreeIsNoTable(m, roots, free)
    requires PageAt(m, x) && NotATable(m, roots, x) && x !in free && ZeroPage(mx, x) && SameOutside(m, mx, x)
    requires pt / 8 + v[d] < |mx| && m2 == mx[pt / 8 + v[d] := TableFlags(x)]
    ensures DescentAt(m2, roots, head, free, m0, c, v, d + 1, free0, ptPage, Frame(Entry(m2, pt, v[d])), 0, false, m, d)
  {
    LinkWord(x);
    PathTable(m, roots, c, v, d);
    hide Frame, Present, TableFlags, Supply, Missing, TreesOk, FreeList, FreeIsNoTable, NotATable, ZeroPage,
      SameOutside;
    NewTableStep(m0, m, mx, m2, roots, head, free, c, v, d, pt, x);
  }

  /** A round for which there is no page. */
  lemma DryRound(m0: seq<Word>, m: seq<Word>, mx: seq<Word>, m2: seq<Word>, roots: set<nat>, free: seq<nat>,
                 c: nat, v: Path, d: nat, free0: seq<nat>, ptPage: nat, pt: nat, dry: bool, m1: seq<Word>, k: nat)
    requires d < 3 && FullPath(v) && c in roots
    requires if dry then DryLink(m1, m, roots, c, v, k) && k < d && pt == 0
             else TreesOk(m, roots) && TableAt(m, c, v[..d]) == Some(pt)
    requires var last := if dry then k else d; Taken(Missing(m0, c, v, last + 1), ptPage) > |free0|
    requires ZeroPage(mx, 0) && SameOutside(m, mx, 0) && pt / 8 + v[d] < |mx| && TableFlags(0) < 0x1_0000_0000_0000_0000
    requires m2 == mx[pt / 8 + v[d] := TableFlags(0)]
    ensures DescentAt(m2, roots, 0, free, m0, c, v, d + 1, free0, ptPage, Frame(Entry(m2, pt, v[d])), 0,
                      true, if dry then m1 else m, if dry then k else d)
  {
    LinkWord(0);
    hide Frame, TableFlags, Missing, Taken, TreesOk, DryLink, OnlySelfLinks, SameOutside;
    if dry {
      DryGoesOn(m1, m, mx, m2, roots, c, v, k, v[d]);
    } else {
      DryStarts(m, mx, m2, roots, c, v, d, pt);
    }
    assert Entry(m2, pt, v[d]) == TableFlags(0);
  }

  lemma DescentStarts(m: seq<Word>, roots: set<nat>, head: nat, free: seq<nat>, c: nat, v: Path, ptPage: nat)
    requires StateOk(m, roots, head, free) && FullPath(v)
    ensures DescentAt(m, roots, head, free, m, c, v, 0, free, ptPage, c, ptPage, false, m, 0)
  {
    assert v[..0] == [];
    DescendHere(m, roots, c, v, 0);
  }

  /** The descent ran dry if and only if there were too few pages for the tables it missed. */
  lemma DescentEnds(m: seq<Word>, roots: set<nat>, head: nat, free: seq<nat>, m0: seq<Word>, c: nat, v: Path,
                    d: nat, free0: seq<nat>, ptPage: nat, pt: nat, page: nat, dry: bool, m1: seq<Word>, k: nat)
    requires d <= |v| && DescentAt(m, roots, head, free, m0, c, v, d, free0, ptPage, pt, page, dry, m1, k)
    ensures dry == (|free0| < Taken(Missing(m0, c, v, d), ptPage))
    ensures dry ==> DryLink(m1, m, roots, c, v, k) && pt == 0
    ensures !dry ==> StateOk(m, roots, head, free) && Descending(m0, m, roots, c, v, d, pt)
    ensures !dry ==> free == free0[Taken(Missing(m0, c, v, d), ptPage)..]
  {
    hide StateOk, Descending, DryLink, OnlySelfLinks, Missing;
    if dry { MissingGrows(m0, c, v, k + 1, d); }
  }
}
