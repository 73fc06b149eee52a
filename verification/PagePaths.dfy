/** Page numbers and table paths: the four indices of an address are the base-512 digits of
    its page number, so a path prefix names a run of consecutive pages. */
module PagePaths {
  import opened Bits
  import opened PageTable

  const PAGES := 0x10_0000_0000    // 2^36 pages of 4 KiB in 48 bits

  /** The number of the 4 KiB page of a linear address, looking at 48 bits only. */
  function PageNo(va: nat): (n: nat)
    ensures n < PAGES
  {
    va / 4096 % PAGES
  }

  /** Pages translated below one table entry that is k levels above the page. */
  function Pow512(k: nat): (p: nat)
    requires k <= 4
    ensures p > 0
  {
    match k case 0 => 1 case 1 => 512 case 2 => 0x4_0000 case 3 => 0x800_0000 case _ => 0x10_0000_0000
  }

  /** The path read as a number with base-512 digits. */
  function Num(q: Path): nat
    decreases |q|
  {
    if q == [] then 0 else Num(q[..|q| - 1]) * 512 + q[|q| - 1]
  }

  predicate Digits(q: Path) {
    |q| <= 4 && forall i :: 0 <= i < |q| ==> q[i] < 512
  }

  lemma {:induction false} NumUnique(p: Path, q: Path)
    requires |p| == |q| && Digits(p) && Digits(q) && Num(p) == Num(q)
    ensures p == q
    decreases |p|
  {
    if p != [] {
      var n := |p| - 1;
      assert p[n] == q[n] && Num(p[..n]) == Num(q[..n]);
      NumUnique(p[..n], q[..n]);
      assert p == p[..n] + [p[n]] && q == q[..n] + [q[n]];
    }
  }

  /** x % (512 m), digit by digit. */
  lemma ModSplit(x: nat, m: nat)
    requires m > 0
    ensures x % (512 * m) == 512 * (x / 512 % m) + x % 512
    ensures x / (512 * m) == x / 512 / m
  {
    var h := x / 512;
    assert h == (h / m) * m + h % m;
    assert x == (h / m) * (512 * m) + (512 * (h % m) + x % 512) by {
      assert (h / m) * (512 * m) == 512 * ((h / m) * m);
    }
    DivModUnique(x, 512 * m, h / m, 512 * (h % m) + x % 512);
  }

  /** The indices are the digits of va / 4096. */
  lemma IdxDigits(va: nat)
    ensures var n := va / 4096;
            && Idx(va, 1) == n % 512 && Idx(va, 2) == n / 512 % 512
            && Idx(va, 3) == n / 512 / 512 % 512 && Idx(va, 4) == n / 512 / 512 / 512 % 512
  {
    DivTwice(va, 512);
    DivTwice(va, 0x4_0000);
    DivTwice(va, 0x800_0000);
    var n := va / 4096;
    ModSplit(n, 512);
    ModSplit(n, 0x4_0000);
    ModSplit(n / 512, 512);
  }

  lemma DivTwice(x: nat, m: nat)
    requires m > 0
    ensures x / (4096 * m) == x / 4096 / m
  {
    var h := x / 4096;
    assert h == (h / m) * m + h % m;
    assert x == (h / m) * (4096 * m) + (4096 * (h % m) + x % 4096) by {
      assert (h / m) * (4096 * m) == 4096 * ((h / m) * m);
    }
    DivModUnique(x, 4096 * m, h / m, 4096 * (h % m) + x % 4096);
  }

  /** x / 512 only looks at x % (512 m) when the quotient is taken modulo m. */
  lemma QuotientOfMod(x: nat, m: nat)
    requires m > 0
    ensures x % (512 * m) / 512 == x / 512 % m
  {
    ModSplit(x, m);
    DivModUnique(x % (512 * m), 512, x / 512 % m, x % 512);
  }

  lemma PageNoQuotients(va: nat)
    ensures var n := va / 4096;
            && PageNo(va) / 512 == n / 512 % 0x800_0000
            && PageNo(va) / 0x4_0000 == n / 512 / 512 % 0x4_0000
            && PageNo(va) / 0x800_0000 == n / 512 / 512 / 512 % 512
            && PageNo(va) / PAGES == 0
  {
    var n := va / 4096;
    var p := PageNo(va);
    QuotientOfMod(n, 0x800_0000);
    QuotientOfMod(n / 512, 0x4_0000);
    QuotientOfMod(n / 512 / 512, 512);
    ModSplit(p, 512);
    ModSplit(p, 0x4_0000);
    ModSplit(p / 512, 512);
  }

  /** A prefix of an address's path is its page number without the low digits. */
  lemma PathIsNumber(va: nat, k: nat)
    requires k <= 4
    ensures Num(PathOf(va)[..k]) == PageNo(va) / Pow512(4 - k)
  {
    IdxDigits(va);
    PageNoQuotients(va);
    var n := va / 4096;
    ModSplit(n, 0x800_0000);
    ModSplit(n / 512, 0x4_0000);
    ModSplit(n / 512 / 512, 512);
    NumStep(PathOf(va), k);
    if k > 0 { NumStep(PathOf(va), k - 1); }
    if k > 1 { NumStep(PathOf(va), k - 2); }
    if k > 2 { NumStep(PathOf(va), k - 3); }
  }

  lemma NumStep(v: Path, k: nat)
    requires k <= |v|
    ensures Num(v[..k]) == if k == 0 then 0 else Num(v[..k - 1]) * 512 + v[k - 1]
  {
    if k > 0 { assert v[..k][..k - 1] == v[..k - 1]; }
  }

  /** A path leads towards an address exactly when it names a run holding the address's page. */
  lemma PathLeadsTo(va: nat, q: Path)
    requires Digits(q)
    ensures q <= PathOf(va) <==> Num(q) == PageNo(va) / Pow512(4 - |q|)
  {
    var v := PathOf(va);
    PathIsNumber(va, |q|);
    if q <= v {
      assert q == v[..|q|];
    } else if Num(q) == Num(v[..|q|]) {
      NumUnique(q, v[..|q|]);
    }
  }

  /** Stepping by whole pages inside the 48-bit range steps the page number. */
  lemma PageNoAdd(va: nat, k: nat)
    requires va < 0x1_0000_0000_0000_0000 && PageNo(va) + k < PAGES
    ensures va + 4096 * k < 0x1_0000_0000_0000_0000 && PageNo(va + 4096 * k) == PageNo(va) + k
  {
    var n := va / 4096;
    var h := n / PAGES;
    assert va == 4096 * n + va % 4096;
    DivModUnique(va + 4096 * k, 4096, n + k, va % 4096);
    assert n == h * PAGES + n % PAGES;
    DivModUnique(n + k, PAGES, h, n % PAGES + k);
  }
}
