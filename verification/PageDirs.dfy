/** Page directories: two levels of tables that together are one map from
    virtual pages to entries. */
module PageDirs {
  import opened Basics
  import opened Arithmetic
  import opened PageTables

  /** A page of words; a word that was never written is 0. */
  type Words = map<nat, nat>

  function Word(m: Words, k: nat): nat { if k in m then m[k] else 0 }

  /** Memory with word K of table PT written. */
  function Write(tables: map<nat, Words>, pt: nat, k: nat, w: nat): map<nat, Words>
    requires pt in tables
  {
    var words: Words := tables[pt][k := w];
    tables[pt := words]
  }

  /** The flags of pde_create. */
  ghost predicate Open(e: nat) { Has(e, PTE_P) && Has(e, PTE_W) && Has(e, PTE_U) }

  /** Every directory entry that is in use was made by pde_create and points to a page table of its own. */
  ghost predicate DirOk(pd: Words, tables: map<nat, Words>) {
    && (forall i :: Word(pd, i) != 0 ==> Open(Word(pd, i)) && PageOf(Word(pd, i)) in tables)
    && (forall i, j :: Word(pd, i) != 0 && Word(pd, j) != 0 && i != j ==> PageOf(Word(pd, i)) != PageOf(Word(pd, j)))
  }

  /** The entry of the page that holds VA, 0 when there is no table for it. */
  ghost function Entry(pd: Words, tables: map<nat, Words>, va: nat): nat {
    var e := Word(pd, PdNo(va));
    if e == 0 || PageOf(e) !in tables then 0 else Word(tables[PageOf(e)], PtNo(va))
  }

  // ---- what the processor sees ----

  /** Where an access goes, and which accesses are allowed. */
  datatype Access = Access(physical: nat, writable: bool, user: bool)

  /** The processor's walk for address VA, as the IA-32 manual has it: bits 22 to 31 select the
      directory entry, bits 12 to 21 the table entry, bits 0 to 11 the byte; bit 0 of an entry
      says that it is present, bits 1 and 2 of both levels allow writes and user accesses.  The
      directory gives physical addresses; TABLES has kernel addresses, 3 GB above. */
  function Translate(pd: Words, tables: map<nat, Words>, va: nat): Option<Access> {
    var pde := Word(pd, va / 0x40_0000);
    var pt := (pde - pde % 4096 + 0xC000_0000) % 0x1_0000_0000;
    if pde % 2 == 0 || pt !in tables then None
    else
      var pte := Word(tables[pt], va % 0x40_0000 / 4096);
      if pte % 2 == 0 then None
      else Some(Access(pte - pte % 4096 + va % 4096, pde / 2 % 2 == 1 && pte / 2 % 2 == 1, pde / 4 % 2 == 1 && pte / 4 % 2 == 1))
  }

  /** What an entry E makes of an address in its page. */
  function Through(e: nat, va: nat): Option<Access> {
    if e % 2 == 0 then None else Some(Access(e - e % 4096 + va % 4096, e / 2 % 2 == 1, e / 4 % 2 == 1))
  }

  /** The processor finds the entry that the kernel's functions find. */
  lemma Translated(pd: Words, tables: map<nat, Words>, va: nat)
    requires DirOk(pd, tables)
    ensures Translate(pd, tables, va) == Through(Entry(pd, tables, va), va)
  {
    hide Has, PdNo, PtNo, PgOfs, DirOk;
    IndicesSplit(va);
    var e := Word(pd, PdNo(va));
    DirAt(pd, tables, PdNo(va));
    LowBits(e);
  }

  lemma DirAt(pd: Words, tables: map<nat, Words>, i: nat)
    requires DirOk(pd, tables)
    ensures Word(pd, i) != 0 ==> Open(Word(pd, i)) && PageOf(Word(pd, i)) in tables
  {
  }

  /** Through a new entry every address of the page goes to the frame, for the user, and for
      writing exactly when the page is writable. */
  lemma ThroughNew(kpage: nat, writable: bool, va: nat)
    requires KernelPage(kpage)
    ensures Through(PteCreateUser(kpage, writable), va) == Some(Access(kpage - 0xC000_0000 + va % 4096, writable, true))
  {
    hide PteCreateUser, Through;
    EntryWords(kpage, writable);
    var q := FrameNumber(kpage);
    var w := if writable then 1 else 0;
    EntryParts(q, w);
    ThroughParts(4096 * q + 5 + 2 * w, w, va);
  }

  lemma FrameNumber(kpage: nat) returns (q: nat)
    requires KernelPage(kpage)
    ensures kpage - 0xC000_0000 == 4096 * q
  {
    q := (kpage - 0xC000_0000) / 4096;
  }

  lemma ThroughParts(e: nat, w: nat, va: nat)
    requires w <= 1 && e % 2 == 1 && e % 4096 == 5 + 2 * w && e / 2 % 2 == w && e / 4 % 2 == 1
    ensures Through(e, va) == Some(Access(e - 5 - 2 * w + va % 4096, w == 1, true))
  {
  }

  lemma Halves(x: nat, q: nat, r: nat)
    requires x == 2 * q + r && r < 2
    ensures x / 2 == q && x % 2 == r
  {
  }

  lemma Quarters(x: nat, q: nat, r: nat)
    requires x == 4 * q + r && r < 4
    ensures x / 4 == q
  {
  }

  lemma Pages(x: nat, q: nat, r: nat)
    requires x == 4096 * q + r && r < 4096
    ensures x % 4096 == r
  {
  }

  lemma EntryParts(q: nat, w: nat)
    requires w <= 1
    ensures var e := 4096 * q + 5 + 2 * w; e % 4096 == 5 + 2 * w && e % 2 == 1 && e / 2 % 2 == w && e / 4 % 2 == 1
  {
    var e := 4096 * q + 5 + 2 * w;
    Pages(e, q, 5 + 2 * w);
    Halves(e, 2048 * q + 2 + w, 1);
    Halves(2048 * q + 2 + w, 1024 * q + 1, w);
    Quarters(e, 1024 * q + 1, 1 + 2 * w);
    Halves(1024 * q + 1, 512 * q, 1);
  }

  /** Through an entry without its present flag nothing goes, and the accessed and dirty flags
      make no difference. */
  lemma ThroughFlags(e: nat, k: nat, va: nat)
    requires k == PTE_P || k == PTE_A || k == PTE_D
    ensures k == PTE_P ==> Through(Clear(e, k), va) == None
    ensures k != PTE_P ==> Through(Clear(e, k), va) == Through(e, va) == Through(Set(e, k), va)
  {
    hide Set, Clear, Has;
    FlagKeepsPage(e, k);
    LowBits(e);
    LowBits(Set(e, k));
    LowBits(Clear(e, k));
    BitOnly(e, k, PTE_P);
    BitOnly(e, k, PTE_W);
    BitOnly(e, k, PTE_U);
  }

  /** A new table, all zeros, in place of a missing one, changes no entry. */
  lemma NewTable(pd: Words, tables: map<nat, Words>, i: nat, pt: nat)
    requires DirOk(pd, tables) && Word(pd, i) == 0 && KernelPage(pt) && pt !in tables
    ensures DirOk(pd[i := PdeCreate(pt)], tables[pt := map[]])
    ensures forall va :: Entry(pd[i := PdeCreate(pt)], tables[pt := map[]], va) == Entry(pd, tables, va)
  {
    hide PageOf, Has, PdNo, PtNo;
    PdeRoundTrip(pt);
    hide PdeCreate;
    var pd', tables' := pd[i := PdeCreate(pt)], tables[pt := map[]];
    forall j ensures Word(pd', j) == if j == i then PdeCreate(pt) else Word(pd, j) {
    }
    forall j | Word(pd, j) != 0 ensures PageOf(Word(pd, j)) in tables && PageOf(Word(pd, j)) != pt {
    }
    forall va ensures Entry(pd', tables', va) == Entry(pd, tables, va) {
      if PdNo(va) != i {
        assert Word(pd', PdNo(va)) == Word(pd, PdNo(va));
      }
    }
  }

  /** Writing one entry changes that page's entry and no other. */
  lemma WriteEntry(pd: Words, tables: map<nat, Words>, page: nat, w: nat)
    requires DirOk(pd, tables) && Word(pd, PdNo(page)) != 0
    ensures var pt := PageOf(Word(pd, PdNo(page)));
            && pt in tables
            && var tables' := Write(tables, pt, PtNo(page), w);
               && DirOk(pd, tables')
               && forall va :: Entry(pd, tables', va) == if PgNo(va) == PgNo(page) then w else Entry(pd, tables, va)
  {
    hide PageOf, Has, PdNo, PtNo, PgNo;
    var pt := PageOf(Word(pd, PdNo(page)));
    var tables' := Write(tables, pt, PtNo(page), w);
    forall va ensures Entry(pd, tables', va) == if PgNo(va) == PgNo(page) then w else Entry(pd, tables, va) {
      IndicesArePage(va, page);
    }
  }

  /** Without entries, no two tables are shared and nothing is mapped. */
  lemma EmptyDir(kernel: map<nat, Words>)
    ensures DirOk(map[], kernel) && forall va :: Entry(map[], kernel, va) == 0
  {
  }

  class PageDirectory {
    var pd: Words
    /** The page tables in memory, by address. */
    var tables: map<nat, Words>

    ghost predicate Valid()
      reads this
    {
      DirOk(pd, tables)
    }

    ghost function At(va: nat): nat
      reads this
    {
      Entry(pd, tables, va)
    }

    /** What the processor makes of address VA. */
    ghost function Sees(va: nat): Option<Access>
      reads this
    {
      Translate(pd, tables, va)
    }

    lemma SeesAll()
      requires Valid()
      ensures forall va :: Sees(va) == Through(At(va), va)
    {
      forall va ensures Sees(va) == Through(At(va), va) {
        Translated(pd, tables, va);
      }
    }

    /** pagedir_create: a directory with the kernel's tables BASE, as copied from the base page
        directory, whose entries it shares. */
    constructor (base: Words, kernel: map<nat, Words>)
      requires DirOk(base, kernel)
      ensures Valid() && pd == base && tables == kernel
    {
      pd, tables := base, kernel;
    }

    /** lookup_page without creating: the table that holds VA's entry. */
    method FindTable(va: nat) returns (pt: Option<nat>)
      requires Valid()
      ensures pt == if Word(pd, PdNo(va)) == 0 then None else Some(PageOf(Word(pd, PdNo(va))))
      ensures pt.None? ==> At(va) == 0
    {
      if Word(pd, PdNo(va)) == 0 {
        return None;
      }
      pt := Some(PageOf(Word(pd, PdNo(va))));
    }

    /** lookup_page with creating: PAGE is what the page allocator gives for a new table. */
    method LookupPage(va: nat, page: Option<nat>) returns (pt: Option<nat>)
      requires Valid() && IsUser(va)
      requires page.Some? ==> KernelPage(page.value) && page.value !in tables
      modifies this
      ensures Valid() && forall a :: At(a) == old(At(a))
      ensures pt.None? <==> old(Word(pd, PdNo(va))) == 0 && page.None?
      ensures pt.Some? ==> Word(pd, PdNo(va)) != 0 && pt.value == PageOf(Word(pd, PdNo(va)))
    {
      hide PageOf, Has, PdNo, PtNo;
      if Word(pd, PdNo(va)) == 0 {
        if page.None? {
          return None;
        }
        NewTable(pd, tables, PdNo(va), page.value);
        PdeRoundTrip(page.value);
        pd := pd[PdNo(va) := PdeCreate(page.value)];
        tables := tables[page.value := map[]];
      }
      pt := Some(PageOf(Word(pd, PdNo(va))));
    }

    /** Stores W as VA's entry in its table PT. */
    method Store(va: nat, pt: nat, w: nat)
      requires Valid() && Word(pd, PdNo(va)) != 0 && pt == PageOf(Word(pd, PdNo(va)))
      modifies this`tables
      ensures Valid() && forall a :: At(a) == if PgNo(a) == PgNo(va) then w else old(At(a))
    {
      WriteEntry(pd, tables, va, w);
      hide PageOf, Has, PdNo, PtNo, PgNo;
      tables := Write(tables, pt, PtNo(va), w);
    }

    /** Reads VA's entry from its table PT. */
    method Load(va: nat, pt: nat) returns (w: nat)
      requires Valid() && Word(pd, PdNo(va)) != 0 && pt == PageOf(Word(pd, PdNo(va)))
      ensures w == At(va)
    {
      hide PageOf, Has, PdNo, PtNo;
      w := Word(tables[pt], PtNo(va));
    }

    /** pagedir_set_page: maps UPAGE to KPAGE, unless a table is missing and there is no page for one. */
    method SetPage(upage: nat, kpage: nat, writable: bool, page: Option<nat>) returns (ok: bool)
      requires Valid() && PgOfs(upage) == 0 && IsUser(upage) && KernelPage(kpage) && !Has(At(upage), PTE_P)
      requires page.Some? ==> KernelPage(page.value) && page.value !in tables
      modifies this
      ensures Valid()
      ensures ok <==> old(Word(pd, PdNo(upage))) != 0 || page.Some?
      ensures forall a :: At(a) == if ok && PgNo(a) == PgNo(upage) then PteCreateUser(kpage, writable) else old(At(a))
      ensures forall a: nat :: Sees(a) == if ok && upage <= a < upage + 4096
                                     then Some(Access(kpage - 0xC000_0000 + (a - upage), writable, true)) else old(Sees(a))
    {
      hide PageOf, Has, PdNo, PtNo, PgNo, DirOk, Entry, Translate, Through, PteCreateUser;
      SeesAll();
      var pt := LookupPage(upage, page);
      ok := pt.Some?;
      if ok {
        Store(upage, pt.value, PteCreateUser(kpage, writable));
      }
      SeesAll();
      forall a: nat ensures Sees(a) == if ok && upage <= a < upage + 4096
                                  then Some(Access(kpage - 0xC000_0000 + (a - upage), writable, true)) else old(Sees(a))
      {
        InPage(upage, a);
        ThroughNew(kpage, writable, a);
      }
    }

    /** pagedir_get_page: the kernel address of user address UADDR, exactly when its page is present. */
    method GetPage(uaddr: nat) returns (r: Option<nat>)
      requires Valid() && IsUser(uaddr)
      ensures r == if Has(At(uaddr), PTE_P) then Some(PageOf(At(uaddr)) + PgOfs(uaddr)) else None
      ensures r == if Sees(uaddr).None? then None else Some((Sees(uaddr).value.physical + 0xC000_0000) % 0x1_0000_0000)
    {
      hide Has, PdNo, PtNo, PgOfs, Translate;
      ZeroHasNone(PTE_P);
      SeesAll();
      LowBits(At(uaddr));
      KernelAddress(At(uaddr), uaddr);
      hide PageOf, Through;
      var pt := FindTable(uaddr);
      if pt.None? {
        return None;
      }
      var e := Load(uaddr, pt.value);
      r := if Has(e, PTE_P) then Some(PageOf(e) + PgOfs(uaddr)) else None;
    }

    /** pagedir_clear_page: takes away the present flag; the other bits stay. */
    method ClearPage(upage: nat)
      requires Valid() && PgOfs(upage) == 0 && IsUser(upage)
      modifies this
      ensures Valid()
      ensures forall a :: At(a) == if PgNo(a) == PgNo(upage) && Has(old(At(a)), PTE_P) then Clear(old(At(a)), PTE_P) else old(At(a))
      ensures forall a: nat :: Sees(a) == if upage <= a < upage + 4096 then None else old(Sees(a))
    {
      hide PageOf, Has, PdNo, PtNo, PgNo, Clear, Translate, Through;
      SeesAll();
      var pt := FindTable(upage);
      SamePageEntry(pd, tables, upage);
      ZeroHasNone(PTE_P);
      if pt.Some? {
        var e := Load(upage, pt.value);
        if Has(e, PTE_P) {
          Store(upage, pt.value, Clear(e, PTE_P));
        }
      }
      SeesAll();
      forall a: nat ensures Sees(a) == if upage <= a < upage + 4096 then None else old(Sees(a)) {
        InPage(upage, a);
        ThroughFlags(old(At(a)), PTE_P, a);
        ThroughAbsent(old(At(a)), a);
      }
    }

    /** pagedir_is_dirty and pagedir_is_accessed. */
    method IsSet(vpage: nat, flag: nat) returns (r: bool)
      requires Valid()
      ensures r == Has(At(vpage), flag)
    {
      hide PageOf, Has, PdNo, PtNo;
      ZeroHasNone(flag);
      var pt := FindTable(vpage);
      if pt.None? {
        return false;
      }
      var e := Load(vpage, pt.value);
      r := Has(e, flag);
    }

    /** pagedir_set_dirty and pagedir_set_accessed: only where there is a table. */
    method SetFlag(vpage: nat, flag: nat, on: bool)
      requires Valid()
      modifies this
      ensures Valid()
      ensures forall a :: At(a) == if PgNo(a) == PgNo(vpage) && Word(pd, PdNo(vpage)) != 0
                                   then (if on then Set(old(At(a)), flag) else Clear(old(At(a)), flag)) else old(At(a))
      ensures flag == PTE_A || flag == PTE_D ==> forall a :: Sees(a) == old(Sees(a))
    {
      hide PageOf, Has, PdNo, PtNo, PgNo, Clear, Set, Translate, Through;
      SeesAll();
      var pt := FindTable(vpage);
      SamePageEntry(pd, tables, vpage);
      if pt.Some? {
        var e := Load(vpage, pt.value);
        Store(vpage, pt.value, if on then Set(e, flag) else Clear(e, flag));
      }
      SeesAll();
      if flag == PTE_A || flag == PTE_D {
        forall a ensures Sees(a) == old(Sees(a)) {
          ThroughFlags(old(At(a)), flag, a);
        }
      }
    }
  }

  lemma InPage(page: nat, a: nat)
    requires PgOfs(page) == 0
    ensures PgNo(a) == PgNo(page) <==> page <= a < page + 4096
    ensures page <= a < page + 4096 ==> a % 4096 == a - page
  {
  }

  lemma ThroughAbsent(e: nat, va: nat)
    ensures !Has(e, PTE_P) ==> Through(e, va) == None
  {
  }

  lemma KernelAddress(e: nat, va: nat)
    ensures PageOf(e) + PgOfs(va) == (e - e % 4096 + va % 4096 + 0xC000_0000) % 0x1_0000_0000
  {
    var q := e / 4096 * 4096 + 0xC000_0000;
    assert q % 4096 == 0 && q % W32 % 4096 == 0;
  }

  /** Addresses in one page have one entry. */
  lemma SamePageEntry(pd: Words, tables: map<nat, Words>, page: nat)
    ensures forall va :: PgNo(va) == PgNo(page) ==> Entry(pd, tables, va) == Entry(pd, tables, page)
  {
    hide PgNo, PdNo, PtNo, PageOf;
    forall va | PgNo(va) == PgNo(page) ensures Entry(pd, tables, va) == Entry(pd, tables, page) {
      IndicesArePage(va, page);
    }
  }

  /** A page that was mapped reads back as its frame plus the offset. */
  lemma MappedReads(e: nat, kpage: nat, writable: bool)
    requires KernelPage(kpage) && e == PteCreateUser(kpage, writable)
    ensures Has(e, PTE_P) && PageOf(e) == kpage && (Has(e, PTE_W) <==> writable) && !Has(e, PTE_A) && !Has(e, PTE_D)
  {
    hide Has, PageOf, PteCreateUser;
    PteRoundTrip(kpage, writable, PTE_P);
    PteRoundTrip(kpage, writable, PTE_W);
    PteRoundTrip(kpage, writable, PTE_A);
    PteRoundTrip(kpage, writable, PTE_D);
  }
}
