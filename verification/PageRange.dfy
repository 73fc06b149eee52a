/** The loop of `install_pages` in 64-bit arithmetic: its bound is the sum of start and length, and
    both that sum and the sum in its guard wrap. */
module PageRange {
  import opened Bits
  import opened PageTable
  import opened Mapping

  const WORD := 0x1_0000_0000_0000_0000

  function Wrap(x: nat): (w: Word) { x % WORD }

  /** The address that round k compares with the bound; round k maps the page before it. */
  function NextPhys(phys: nat, k: nat): nat {
    Wrap(phys + 4096 * k + 4096)
  }

  /** The guard of round k. */
  predicate GoesOn(phys: nat, len: nat, k: nat) {
    NextPhys(phys, k) <= Wrap(phys + len)
  }

  /** The bound lies before the last address of the address space with the start's page offset. */
  predicate Ends(phys: nat, len: nat) {
    Wrap(phys + len) < WORD - 4096 + phys % 4096
  }

  /** How many pages a loop that ends has mapped. */
  function Rounds(phys: nat, len: nat): nat {
    if phys + len < WORD then len / 4096
    else if phys + 4096 < WORD || phys + len - WORD < phys % 4096 then 0
    else (phys + len - WORD - phys % 4096) / 4096 + 1
  }

  lemma Within(phys: nat, k: nat)
    requires phys + 4096 * k + 4096 < WORD
    ensures NextPhys(phys, k) == phys + 4096 * k + 4096
  {}

  /** A start in the last page: the first round wraps to the page offset. */
  lemma LastPage(phys: nat, k: nat)
    requires phys < WORD <= phys + 4096 && phys % 4096 + 4096 * k < WORD
    ensures NextPhys(phys, k) == phys % 4096 + 4096 * k
  {
    DivModUnique(phys, 4096, WORD / 4096 - 1, phys - (WORD - 4096));
    DivModUnique(phys + 4096 * k + 4096, WORD, 1, phys % 4096 + 4096 * k);
  }

  lemma RoundsWithoutWrap(phys: nat, len: nat)
    requires phys < WORD && phys + len < WORD && Ends(phys, len)
    ensures phys + 4096 * (len / 4096) + 4096 < WORD
    ensures (forall k :: 0 <= k < len / 4096 ==> GoesOn(phys, len, k)) && !GoesOn(phys, len, len / 4096)
  {
    var n, s := len / 4096, phys % 4096;
    assert (phys + len) % WORD == phys + len;
    assert phys / 4096 + n + 1 < WORD / 4096 by {
      assert phys == 4096 * (phys / 4096) + s;
    }
    forall k | 0 <= k < n ensures GoesOn(phys, len, k) { Within(phys, k); }
    Within(phys, n);
  }

  lemma RoundsWithWrap(phys: nat, len: nat)
    requires phys < WORD && len < WORD && phys + len >= WORD && Ends(phys, len)
    ensures forall k :: 0 <= k < Rounds(phys, len) ==> GoesOn(phys, len, k)
    ensures !GoesOn(phys, len, Rounds(phys, len))
  {
    var max, s, n := phys + len - WORD, phys % 4096, Rounds(phys, len);
    DivModUnique(phys + len, WORD, 1, max);
    if phys + 4096 < WORD {
      Within(phys, 0);
    } else {
      assert max >= s ==> 4096 * (n - 1) <= max - s < 4096 * n;
      assert 4096 * n <= WORD - 4096;
      forall k | 0 <= k <= n ensures NextPhys(phys, k) == s + 4096 * k { LastPage(phys, k); }
    }
  }

  /** A loop that ends makes exactly Rounds rounds. */
  lemma RoundsMeaning(phys: nat, len: nat)
    requires phys < WORD && len < WORD && Ends(phys, len)
    ensures forall k :: 0 <= k < Rounds(phys, len) ==> GoesOn(phys, len, k)
    ensures !GoesOn(phys, len, Rounds(phys, len))
  {
    if phys + len < WORD {
      RoundsWithoutWrap(phys, len);
    } else {
      RoundsWithWrap(phys, len);
    }
  }

  lemma NextBound(phys: nat, k: nat)
    ensures NextPhys(phys, k) <= WORD - 4096 + phys % 4096
  {
    var x := phys + 4096 * k + 4096;
    var q := x / WORD;
    DivModUnique(x - q * WORD, 4096, phys / 4096 + k + 1 - q * (WORD / 4096), phys % 4096);
  }

  /** For every start and length the loop ends if and only if the bound lies before the last
      address with the start's page offset. */
  lemma LoopEndsIff(phys: nat, len: nat)
    requires phys < WORD && len < WORD
    ensures (exists k: nat :: !GoesOn(phys, len, k)) <==> Ends(phys, len)
  {
    if Ends(phys, len) {
      RoundsMeaning(phys, len);
    } else {
      forall k: nat ensures GoesOn(phys, len, k) { NextBound(phys, k); }
    }
  }

  /** Where the sum of start and length does not wrap, that says that the page after the last one
      mapped does not reach past the address space. */
  lemma EndsWithoutWrapIff(phys: nat, len: nat)
    requires phys + len < WORD
    ensures Ends(phys, len) <==> phys + 4096 * (len / 4096) + 4096 < WORD
  {
    assert (phys + len) % WORD == phys + len;
    assert phys == 4096 * (phys / 4096) + phys % 4096 && len == 4096 * (len / 4096) + len % 4096;
    if Ends(phys, len) {
      RoundsWithoutWrap(phys, len);
    }
  }

  lemma NoWrap(x: nat)
    requires x < WORD
    ensures Wrap(x) == x
  {}

  lemma AddPage(x: nat)
    ensures Wrap(Wrap(x) + 4096) == Wrap(x + 4096)
  {
    DivModUnique(x + 4096, WORD, x / WORD + (x % WORD + 4096) / WORD, (x % WORD + 4096) % WORD);
  }

  /** A wrapped address names the same frame. */
  lemma WrappedFrame(x: nat)
    ensures PhysPage(Wrap(x)) == PhysPage(x)
  {
    var y := x % WORD;
    assert x == x / WORD * WORD + y;
    DivModUnique(x, PHYS_LIMIT, x / WORD * 4096 + y / PHYS_LIMIT, y % PHYS_LIMIT);
  }
}
