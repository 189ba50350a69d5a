/** Virtual addresses and page table entries of the two-level page tables
    described in volume 3A of the IA-32 manual, section 3.7.6.  Words are
    naturals below 2^32; masks and shifts of whole fields are written as
    remainders and quotients. */
module PageTables {
  import opened Arithmetic

  const PHYS_BASE := 0xC000_0000
  const PGSIZE := 4096

  /** The flags of an entry, by bit number: present, writable, user, accessed, dirty. */
  const PTE_P := 0
  const PTE_W := 1
  const PTE_U := 2
  const PTE_A := 5
  const PTE_D := 6

  function PgOfs(va: nat): nat { va % PGSIZE }

  function PgNo(va: nat): nat { va / PGSIZE }

  function PgRoundDown(va: nat): nat { va - va % PGSIZE }

  function PgRoundUp(va: nat): nat { PgRoundDown((va + PGSIZE - 1) % W32) }

  function PtNo(va: nat): nat { va / PGSIZE % 1024 }

  function PdNo(va: nat): nat { va / 0x40_0000 }

  predicate IsUser(va: nat) { va < PHYS_BASE }

  /** A page that the kernel can reach: aligned and above PHYS_BASE. */
  predicate KernelPage(p: nat) { PHYS_BASE <= p < W32 && PgOfs(p) == 0 }

  function Ptov(p: nat): nat { (p + PHYS_BASE) % W32 }

  function Vtop(v: nat): nat
    requires v >= PHYS_BASE
  {
    v - PHYS_BASE
  }

  // ---- single bits ----

  /** Bit K of E. */
  predicate Has(e: nat, k: nat) {
    if k == 0 then e % 2 == 1 else Has(e / 2, k - 1)
  }

  /** E with bit K on. */
  function Set(e: nat, k: nat): nat {
    if k == 0 then e - e % 2 + 1 else 2 * Set(e / 2, k - 1) + e % 2
  }

  /** E with bit K off. */
  function Clear(e: nat, k: nat): nat {
    if k == 0 then e - e % 2 else 2 * Clear(e / 2, k - 1) + e % 2
  }

  /** Turning a bit on or off changes that bit only. */
  lemma {:induction false} BitOnly(e: nat, k: nat, j: nat)
    ensures Has(Set(e, k), j) == (j == k || Has(e, j))
    ensures Has(Clear(e, k), j) == (j != k && Has(e, j))
  {
    if k > 0 && j > 0 {
      BitOnly(e / 2, k - 1, j - 1);
      assert Set(e, k) / 2 == Set(e / 2, k - 1) && Clear(e, k) / 2 == Clear(e / 2, k - 1);
    } else if j > 0 {
      assert Set(e, k) / 2 == e / 2 && Clear(e, k) / 2 == e / 2;
    }
  }

  /** The bits above K are kept. */
  lemma {:induction false} BitsAbove(e: nat, k: nat, j: nat)
    requires k < j
    ensures Set(e, k) / Pow2(j) == e / Pow2(j) && Clear(e, k) / Pow2(j) == e / Pow2(j)
  {
    var p := Pow2(j - 1);
    if k > 0 {
      BitsAbove(e / 2, k - 1, j - 1);
    }
    assert Set(e, k) / 2 == (if k == 0 then e / 2 else Set(e / 2, k - 1));
    assert Clear(e, k) / 2 == (if k == 0 then e / 2 else Clear(e / 2, k - 1));
    DivTwice(e, 2, p);
    DivTwice(Set(e, k), 2, p);
    DivTwice(Clear(e, k), 2, p);
  }

  /** A multiple of 2^M has no bit below M. */
  lemma {:induction false} NoLowBits(n: nat, m: nat, j: nat)
    requires j < m
    ensures !Has(n * Pow2(m), j)
  {
    var x := n * Pow2(m - 1);
    assert n * Pow2(m) == 2 * x by { TwiceProduct(n, Pow2(m - 1)); }
    if j > 0 {
      NoLowBits(n, m - 1, j - 1);
    }
  }

  // ---- entries ----

  function PdeCreate(pt: nat): nat
    requires KernelPage(pt)
  {
    Set(Set(Set(Vtop(pt), PTE_U), PTE_P), PTE_W)
  }

  function PteCreateKernel(page: nat, writable: bool): nat
    requires KernelPage(page)
  {
    var e := Set(Vtop(page), PTE_P);
    if writable then Set(e, PTE_W) else e
  }

  function PteCreateUser(page: nat, writable: bool): nat
    requires KernelPage(page)
  {
    Set(PteCreateKernel(page, writable), PTE_U)
  }

  /** The page that an entry points to: pde_get_pt and pte_get_page. */
  function PageOf(e: nat): nat { Ptov(e / PGSIZE * PGSIZE) }

  /** The two indices together are the page number: they tell pages apart. */
  lemma IndicesArePage(a: nat, b: nat)
    ensures PgNo(a) == PgNo(b) <==> PdNo(a) == PdNo(b) && PtNo(a) == PtNo(b)
  {
    assert PgNo(a) == PdNo(a) * 1024 + PtNo(a);
    assert PgNo(b) == PdNo(b) * 1024 + PtNo(b);
  }

  /** Bits 22 to 31 of an address, bits 12 to 21 and bits 0 to 11 are its three parts. */
  lemma IndicesSplit(va: nat)
    ensures va == PdNo(va) * 0x40_0000 + PtNo(va) * 4096 + PgOfs(va) && PtNo(va) < 1024 && PgOfs(va) < 4096
    ensures va < W32 ==> PdNo(va) < 1024
    ensures PdNo(va) == va / 0x40_0000 && PtNo(va) == va % 0x40_0000 / 4096 && PgOfs(va) == va % 4096
  {
  }

  lemma Page12()
    ensures Pow2(12) == PGSIZE
  {
    hide Pow2;
    Pow2Small();
    Pow2Add(4, 8);
  }

  /** Changing a flag keeps the page that an entry points to. */
  lemma FlagKeepsPage(e: nat, k: nat)
    requires k < 12
    ensures Set(e, k) / PGSIZE == e / PGSIZE && Clear(e, k) / PGSIZE == e / PGSIZE
    ensures PageOf(Set(e, k)) == PageOf(e) && PageOf(Clear(e, k)) == PageOf(e)
  {
    hide Pow2, Set, Clear;
    Page12();
    BitsAbove(e, k, 12);
  }

  lemma FramePage(page: nat)
    requires KernelPage(page)
    ensures PageOf(Vtop(page)) == page && forall j: nat :: j < 12 ==> !Has(Vtop(page), j)
  {
    hide Pow2, Has;
    Page12();
    var n := Vtop(page) / PGSIZE;
    assert Vtop(page) == n * Pow2(12);
    forall j: nat | j < 12 ensures !Has(Vtop(page), j) {
      NoLowBits(n, 12, j);
    }
  }

  lemma PdeRoundTrip(pt: nat)
    requires KernelPage(pt)
    ensures PageOf(PdeCreate(pt)) == pt && PdeCreate(pt) != 0
    ensures Has(PdeCreate(pt), PTE_P) && Has(PdeCreate(pt), PTE_W) && Has(PdeCreate(pt), PTE_U)
  {
    hide Set, Has, PageOf, Vtop;
    FramePage(pt);
    var e := Vtop(pt);
    FlagKeepsPage(e, PTE_U);
    FlagKeepsPage(Set(e, PTE_U), PTE_P);
    FlagKeepsPage(Set(Set(e, PTE_U), PTE_P), PTE_W);
    BitOnly(e, PTE_U, PTE_U);
    BitOnly(Set(e, PTE_U), PTE_P, PTE_P);
    BitOnly(Set(e, PTE_U), PTE_P, PTE_U);
    BitOnly(Set(Set(e, PTE_U), PTE_P), PTE_W, PTE_P);
    BitOnly(Set(Set(e, PTE_U), PTE_P), PTE_W, PTE_W);
    BitOnly(Set(Set(e, PTE_U), PTE_P), PTE_W, PTE_U);
    ZeroHasNone(PTE_P);
  }

  lemma ZeroHasNone(k: nat)
    ensures !Has(0, k)
  {
  }

  /** A user entry gives back its page and its permission; it is present, and no other flag is on. */
  lemma PteRoundTrip(page: nat, writable: bool, j: nat)
    requires KernelPage(page) && j < 12
    ensures PageOf(PteCreateUser(page, writable)) == page
    ensures Has(PteCreateUser(page, writable), j) <==> j == PTE_P || j == PTE_U || (j == PTE_W && writable)
  {
    hide Set, Has, PageOf, Vtop;
    FramePage(page);
    var e := Vtop(page);
    var k := PteCreateKernel(page, writable);
    FlagKeepsPage(e, PTE_P);
    FlagKeepsPage(Set(e, PTE_P), PTE_W);
    FlagKeepsPage(k, PTE_U);
    BitOnly(e, PTE_P, j);
    BitOnly(Set(e, PTE_P), PTE_W, j);
    BitOnly(k, PTE_U, j);
  }

  /** Turning on a bit that is off adds its weight. */
  lemma {:induction false} SetAdds(e: nat, k: nat)
    requires !Has(e, k)
    ensures Set(e, k) == e + Pow2(k)
  {
    if k > 0 {
      SetAdds(e / 2, k - 1);
    }
  }

  lemma FlagWeights()
    ensures Pow2(PTE_P) == 1 && Pow2(PTE_W) == 2 && Pow2(PTE_U) == 4 && Pow2(PTE_A) == 0x20 && Pow2(PTE_D) == 0x40
  {
    assert Pow2(3) == 2 * Pow2(2) && Pow2(4) == 2 * Pow2(3) && Pow2(5) == 2 * Pow2(4) && Pow2(6) == 2 * Pow2(5);
  }

  /** The entries as numbers: the frame's physical address plus the flags. */
  lemma EntryWords(page: nat, writable: bool)
    requires KernelPage(page)
    ensures PteCreateUser(page, writable) == Vtop(page) + 5 + if writable then 2 else 0
    ensures PdeCreate(page) == Vtop(page) + 7
  {
    FlagWeights();
    FramePage(page);
    hide Set, Has, Pow2, Vtop;
    var e := Vtop(page);
    var u := Set(e, PTE_U);
    SetAdds(e, PTE_U);
    BitOnly(e, PTE_U, PTE_P);
    BitOnly(e, PTE_U, PTE_W);
    SetAdds(u, PTE_P);
    BitOnly(u, PTE_P, PTE_W);
    SetAdds(Set(u, PTE_P), PTE_W);
    SetAdds(e, PTE_P);
    BitOnly(e, PTE_P, PTE_W);
    BitOnly(e, PTE_P, PTE_U);
    SetAdds(Set(e, PTE_P), PTE_W);
    BitOnly(Set(e, PTE_P), PTE_W, PTE_U);
    SetAdds(PteCreateKernel(page, writable), PTE_U);
  }

  lemma LowBits(e: nat)
    ensures Has(e, PTE_P) <==> e % 2 == 1
    ensures Has(e, PTE_W) <==> e / 2 % 2 == 1
    ensures Has(e, PTE_U) <==> e / 4 % 2 == 1
  {
    assert Has(e, 2) == Has(e / 2, 1) == Has(e / 2 / 2, 0);
  }

  lemma RoundDown(va: nat)
    ensures PgRoundDown(va) + PgOfs(va) == va && PgOfs(PgRoundDown(va)) == 0 && PgNo(PgRoundDown(va)) == PgNo(va)
  {
  }

  /** Rounding up gives the least page boundary at or above, except past the last
      boundary, where it wraps to 0. */
  lemma RoundUp(va: nat)
    requires va < W32
    ensures PgOfs(PgRoundUp(va)) == 0
    ensures va <= PgRoundUp(va) < va + PGSIZE <==> va <= W32 - PGSIZE
    ensures va > W32 - PGSIZE ==> PgRoundUp(va) == 0
  {
  }
}
