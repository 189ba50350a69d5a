/** Loading an ELF segment page by page, on demand: validate_segment, the sizes
    that load computes, load_segment, lazy_load and actual_load. */
module Loader {
  import opened Basics
  import opened Arithmetic
  import Blocks
  import PageDirs
  import PageTables

  type Byte = Blocks.Byte

  const PGSIZE := PageTables.PGSIZE

  /** A program header, pages 2-2 to 2-4 of the ELF specification. */
  datatype Phdr = Phdr(offset: nat, vaddr: nat, filesz: nat, memsz: nat, writable: bool)

  /** Its fields are 32-bit words. */
  predicate IsPhdr(p: Phdr) {
    p.offset < W32 && p.vaddr < W32 && p.filesz < W32 && p.memsz < W32
  }

  /** validate_segment, in 32-bit arithmetic. */
  predicate ValidateSegment(p: Phdr, fileLength: nat) {
    && p.offset % PGSIZE == p.vaddr % PGSIZE
    && p.offset <= fileLength
    && p.memsz >= p.filesz
    && p.memsz != 0
    && p.vaddr < PageTables.PHYS_BASE
    && (p.vaddr + p.memsz) % W32 < PageTables.PHYS_BASE
    && (p.vaddr + p.memsz) % W32 >= p.vaddr
    && p.vaddr >= PGSIZE
  }

  /** ROUND_UP to a page, in 32-bit arithmetic. */
  function RoundUp(x: nat): nat { (x + PGSIZE - 1) % W32 / PGSIZE * PGSIZE }

  function PageOffset(p: Phdr): nat { p.vaddr % PGSIZE }

  function ReadBytes(p: Phdr): nat {
    if p.filesz > 0 then (PageOffset(p) + p.filesz) % W32 else 0
  }

  function ZeroBytes(p: Phdr): nat {
    (RoundUp((PageOffset(p) + p.memsz) % W32) - ReadBytes(p)) % W32
  }

  function FilePage(p: Phdr): nat { p.offset - p.offset % PGSIZE }

  function MemPage(p: Phdr): nat { p.vaddr - p.vaddr % PGSIZE }

  /** For a valid segment nothing wraps: the sizes cover the segment's pages exactly,
      and they lie in user space. */
  lemma SizesFit(p: Phdr, fileLength: nat)
    requires IsPhdr(p) && ValidateSegment(p, fileLength)
    ensures p.vaddr + p.memsz < PageTables.PHYS_BASE
    ensures ReadBytes(p) == (if p.filesz > 0 then PageOffset(p) + p.filesz else 0)
    ensures (ReadBytes(p) + ZeroBytes(p)) % PGSIZE == 0
    ensures PageOffset(p) + p.memsz <= ReadBytes(p) + ZeroBytes(p) < PageOffset(p) + p.memsz + PGSIZE
    ensures MemPage(p) + ReadBytes(p) + ZeroBytes(p) <= PageTables.PHYS_BASE
    ensures FilePage(p) + PageOffset(p) == p.offset && FilePage(p) % PGSIZE == 0 && MemPage(p) % PGSIZE == 0
  {
    NoWrap(p, fileLength);
    hide ValidateSegment, RoundUp, ReadBytes, ZeroBytes;
    var x := PageOffset(p) + p.memsz;
    RoundUpSmall(x);
    SizesAre(p, x);
    PagesEnd(p.vaddr, p.memsz, RoundUp(x));
  }

  lemma SizesAre(p: Phdr, x: nat)
    requires x == PageOffset(p) + p.memsz && p.filesz <= p.memsz && x % W32 == x && x <= RoundUp(x) < W32
    ensures ReadBytes(p) == (if p.filesz > 0 then PageOffset(p) + p.filesz else 0)
    ensures ReadBytes(p) + ZeroBytes(p) == RoundUp(x)
  {
    hide RoundUp, PageOffset;
  }

  /** The 32-bit checks accept exactly the segments that lie in user space, above its
      first page, without wrapping around. */
  lemma AcceptedExactly(p: Phdr, fileLength: nat)
    requires IsPhdr(p)
    ensures ValidateSegment(p, fileLength) <==>
              && p.offset % PGSIZE == p.vaddr % PGSIZE && p.offset <= fileLength
              && p.filesz <= p.memsz && 0 < p.memsz
              && PGSIZE <= p.vaddr && p.vaddr + p.memsz < PageTables.PHYS_BASE
  {
    assert p.vaddr + p.memsz >= W32 ==> (p.vaddr + p.memsz) % W32 == p.vaddr + p.memsz - W32 < p.vaddr;
  }

  lemma NoWrap(p: Phdr, fileLength: nat)
    requires IsPhdr(p) && ValidateSegment(p, fileLength)
    ensures p.vaddr + p.memsz < PageTables.PHYS_BASE && p.memsz >= p.filesz && p.offset % PGSIZE == p.vaddr % PGSIZE
  {
    assert p.vaddr + p.memsz < W32;
  }

  lemma PagesEnd(vaddr: nat, memsz: nat, r: nat)
    requires vaddr + memsz < PageTables.PHYS_BASE && r % PGSIZE == 0 && r < vaddr % PGSIZE + memsz + PGSIZE
    ensures vaddr - vaddr % PGSIZE + r <= PageTables.PHYS_BASE
  {
  }

  lemma RoundUpSmall(x: nat)
    requires x <= PageTables.PHYS_BASE
    ensures x % W32 == x && x <= RoundUp(x) < x + PGSIZE && RoundUp(x) % PGSIZE == 0
  {
  }

  // ---- pages ----

  /** What lazy_load records about a page. */
  datatype Entry = Entry(ofs: nat, readBytes: nat, zeroBytes: nat, writable: bool)

  /** The entry for the page at D bytes into a segment of READ file bytes that start at OFS. */
  function EntryAt(ofs: nat, read: nat, writable: bool, d: nat): Entry {
    var left := if d < read then read - d else 0;
    var r := if left < PGSIZE then left else PGSIZE;
    Entry(ofs + (if d < read then d else read), r, PGSIZE - r, writable)
  }

  /** file_seek asserts that the offset, a signed 32-bit number, is not negative. */
  predicate Seekable(e: Entry) { e.ofs < I31 }

  /** file_read at an offset: as much as the file has. */
  function FileRead(file: seq<Byte>, ofs: nat, n: nat): seq<Byte> {
    if ofs >= |file| then [] else if ofs + n <= |file| then file[ofs..ofs + n] else file[ofs..]
  }

  /** The page that actual_load makes, or none when the file is too short. */
  function Loaded(e: Entry, file: seq<Byte>): Option<seq<Byte>> {
    var got := FileRead(file, e.ofs, e.readBytes);
    if |got| != e.readBytes then None else Some(got + seq(e.zeroBytes, i => 0 as Byte))
  }

  /** Byte J of the whole segment, read in one go: file bytes, then zeros. */
  function SegmentByte(file: seq<Byte>, ofs: nat, read: nat, j: nat): Byte
    requires j < read ==> ofs + j < |file|
  {
    if j < read then file[ofs + j] else 0
  }

  /** The bytes of the segment's page at D are all in the file. */
  predicate InFile(file: seq<Byte>, ofs: nat, read: nat, d: nat) {
    var end := if d + PGSIZE < read then d + PGSIZE else read;
    d < read ==> ofs + end <= |file|
  }

  /** A page loads exactly when the file has its bytes, and then it is its part of the one
      eager copy, whether or not the rest of the segment is in the file.  Where it reads any
      bytes, its offset passes file_seek's assertion, as files are shorter than 2^31 bytes. */
  lemma LazyPage(file: seq<Byte>, ofs: nat, read: nat, writable: bool, d: nat)
    ensures var e := EntryAt(ofs, read, writable, d);
            && e.readBytes + e.zeroBytes == PGSIZE
            && (Loaded(e, file).Some? <==> InFile(file, ofs, read, d))
            && (Loaded(e, file).Some? && d < read && |file| < I31 ==> Seekable(e))
            && (Loaded(e, file).Some? ==>
                  && |Loaded(e, file).value| == PGSIZE
                  && forall o :: 0 <= o < PGSIZE ==>
                       && (d + o < read ==> ofs + (d + o) < |file|)
                       && Loaded(e, file).value[o] == SegmentByte(file, ofs, read, d + o))
  {
  }

  /** What the ELF specification puts at address A of a segment. */
  function ElfByte(p: Phdr, file: seq<Byte>, a: nat): Byte
    requires p.vaddr <= a && (a - p.vaddr < p.filesz ==> p.offset + (a - p.vaddr) < |file|)
  {
    if a - p.vaddr < p.filesz then file[p.offset + (a - p.vaddr)] else 0
  }

  /** Loading on demand, for every header that validate_segment accepts: the page at D of the
      segment, which holds A at offset O, loads exactly when the file has the page's bytes, and
      then A reads as the ELF specification says. */
  lemma SegmentMeaning(p: Phdr, file: seq<Byte>, a: nat, d: nat, o: nat)
    requires IsPhdr(p) && ValidateSegment(p, |file|)
    requires p.vaddr <= a < p.vaddr + p.memsz
    requires d % PGSIZE == 0 && o < PGSIZE && MemPage(p) + d + o == a
    ensures d < ReadBytes(p) + ZeroBytes(p)
    ensures var page := Loaded(EntryAt(FilePage(p), ReadBytes(p), p.writable, d), file);
            && (page.Some? <==> InFile(file, FilePage(p), ReadBytes(p), d))
            && (page.Some? ==>
                  && (a - p.vaddr < p.filesz ==> p.offset + (a - p.vaddr) < |file|)
                  && |page.value| == PGSIZE && page.value[o] == ElfByte(p, file, a))
  {
    SizesFit(p, |file|);
    hide ValidateSegment, RoundUp, EntryAt, Loaded, ZeroBytes, InFile;
    LazyPage(file, FilePage(p), ReadBytes(p), p.writable, d);
  }

  lemma LastPage(read: nat) returns (last: nat)
    requires read > 0
    ensures last % PGSIZE == 0 && last < read <= last + PGSIZE
  {
    last := (read - 1) - (read - 1) % PGSIZE;
  }

  /** All pages of an accepted segment load, none of them stopped by file_seek's assertion,
      exactly when its file part ends within the file. */
  lemma AllPagesLoad(p: Phdr, file: seq<Byte>)
    requires IsPhdr(p) && ValidateSegment(p, |file|) && |file| < I31
    ensures (forall d: nat :: d % PGSIZE == 0 ==>
               var e := EntryAt(FilePage(p), ReadBytes(p), p.writable, d); Seekable(e) && Loaded(e, file).Some?)
            <==> p.filesz == 0 || p.offset + p.filesz <= |file|
  {
    SizesFit(p, |file|);
    var ofs, read := FilePage(p), ReadBytes(p);
    hide ValidateSegment, RoundUp, EntryAt, Loaded, ZeroBytes;
    forall d: nat
      ensures Loaded(EntryAt(ofs, read, p.writable, d), file).Some? <==> InFile(file, ofs, read, d)
      ensures Seekable(EntryAt(ofs, read, p.writable, d)) <==> ofs + (if d < read then d else read) < I31
    {
      LazyPage(file, ofs, read, p.writable, d);
      EntryOffset(ofs, read, p.writable, d);
    }
    if p.filesz > 0 {
      var last := LastPage(read);
      assert InFile(file, ofs, read, last) <==> ofs + read <= |file|;
      assert Loaded(EntryAt(ofs, read, p.writable, last), file).Some? <==> InFile(file, ofs, read, last);
    }
  }

  /** No offset of an accepted segment wraps around in 32 bits, so one of 2^31 or more is negative
      as an off_t and stops at file_seek's assertion.  Files here are far below 2^30 bytes. */
  lemma OffsetsFit(p: Phdr, fileLength: nat, d: nat)
    requires IsPhdr(p) && ValidateSegment(p, fileLength) && fileLength <= 0x4000_0000
    ensures EntryAt(FilePage(p), ReadBytes(p), p.writable, d).ofs < W32
  {
    hide ZeroBytes, RoundUp;
    AcceptedExactly(p, fileLength);
    hide ValidateSegment;
    EntryOffset(FilePage(p), ReadBytes(p), p.writable, d);
  }

  lemma EntryOffset(ofs: nat, read: nat, writable: bool, d: nat)
    ensures EntryAt(ofs, read, writable, d).ofs == ofs + if d < read then d else read
    ensures EntryAt(ofs, read, writable, d).writable == writable
  {
  }

  /** PT is WAS with entries for the pages of a segment up to D bytes, except where there were entries already. */
  ghost predicate Mapped(was: map<nat, Entry>, pt: map<nat, Entry>, ofs: nat, upage: nat, read: nat, writable: bool, d: nat) {
    && (forall x: nat :: x < d && x % PGSIZE == 0 ==> upage + x in pt)
    && (forall u :: u in was ==> u in pt && pt[u] == was[u])
    && (forall u :: u in pt && u !in was ==>
          upage <= u < upage + d && (u - upage) % PGSIZE == 0 && pt[u] == EntryAt(ofs, read, writable, u - upage))
  }

  lemma MappedNext(was: map<nat, Entry>, pt: map<nat, Entry>, ofs: nat, upage: nat, read: nat, writable: bool, d: nat)
    requires d % PGSIZE == 0 && Mapped(was, pt, ofs, upage, read, writable, d)
    ensures var pt' := if upage + d !in pt then pt[upage + d := EntryAt(ofs, read, writable, d)] else pt;
            Mapped(was, pt', ofs, upage, read, writable, d + PGSIZE)
  {
    hide EntryAt;
    var pt' := if upage + d !in pt then pt[upage + d := EntryAt(ofs, read, writable, d)] else pt;
    forall x: nat | x < d + PGSIZE && x % PGSIZE == 0 ensures upage + x in pt' {
      assert x < d || x == d;
    }
  }

  /** The entries of a segment have its permission. */
  lemma MappedPermission(was: map<nat, Entry>, pt: map<nat, Entry>, ofs: nat, upage: nat, read: nat, writable: bool, d: nat)
    requires Mapped(was, pt, ofs, upage, read, writable, d)
    ensures forall u :: u in pt && u !in was ==> pt[u].writable == writable
  {
  }

  lemma MappedNone(pt: map<nat, Entry>, ofs: nat, upage: nat, read: nat, writable: bool)
    ensures Mapped(pt, pt, ofs, upage, read, writable, 0)
  {
  }

  class AddressSpace {
    const pagedir: PageDirs.PageDirectory
    /** The supplementary page table, by page address. */
    var pt: map<nat, Entry>
    /** What the frames hold, by kernel address. */
    var frames: map<nat, seq<Byte>>

    constructor (pd: PageDirs.PageDirectory)
      ensures pagedir == pd && pt == map[] && frames == map[]
    {
      pagedir, pt, frames := pd, map[], map[];
    }

    /** lazy_load; ROOM tells whether memory for the entry is to be had.  An entry that is there stays. */
    method LazyLoad(upage: nat, e: Entry, room: bool) returns (ok: bool)
      modifies this`pt
      ensures ok == room
      ensures pt == if room && upage !in old(pt) then old(pt)[upage := e] else old(pt)
    {
      if !room {
        return false;
      }
      if upage !in pt {
        pt := pt[upage := e];
      }
      ok := true;
    }

    /** load_segment: one entry for each page of the segment, or for the first D bytes when memory runs short. */
    method LoadSegment(ofs0: nat, upage0: nat, read: nat, zero: nat, writable: bool) returns (ok: bool, ghost d: nat)
      requires (read + zero) % PGSIZE == 0 && upage0 % PGSIZE == 0 && ofs0 % PGSIZE == 0
      modifies this`pt
      ensures d <= read + zero && d % PGSIZE == 0 && (ok <==> d == read + zero)
      ensures Mapped(old(pt), pt, ofs0, upage0, read, writable, d)
      ensures forall u :: u in pt && u !in old(pt) ==> pt[u].writable == writable
    {
      hide Mapped;
      var readBytes: nat, zeroBytes: nat, upage, ofs := read, zero, upage0, ofs0;
      d := 0;
      MappedNone(pt, ofs0, upage0, read, writable);
      while readBytes > 0 || zeroBytes > 0
        invariant d % PGSIZE == 0 && upage == upage0 + d && readBytes + zeroBytes + d == read + zero
        invariant readBytes == (if d < read then read - d else 0) && ofs == ofs0 + (if d < read then d else read)
        invariant Mapped(old(pt), pt, ofs0, upage0, read, writable, d)
        decreases readBytes + zeroBytes
      {
        var pageRead := if readBytes < PGSIZE then readBytes else PGSIZE;
        var pageZero := PGSIZE - pageRead;
        var room: bool := *;
        MappedNext(old(pt), pt, ofs0, upage0, read, writable, d);
        ok := LazyLoad(upage, Entry(ofs, pageRead, pageZero, writable), room);
        if !ok {
          MappedPermission(old(pt), pt, ofs0, upage0, read, writable, d);
          return;
        }
        readBytes := readBytes - pageRead;
        zeroBytes := zeroBytes - pageZero;
        upage := upage + PGSIZE;
        ofs := ofs + pageRead;
        d := d + PGSIZE;
      }
      MappedPermission(old(pt), pt, ofs0, upage0, read, writable, d);
      ok := true;
    }

    /** actual_load into the frame KPAGE; TABLE is what the page allocator gives for a new page
        table.  The page's bytes go into the frame and the page is mapped to it; when the file is
        too short, the entry is dropped instead. */
    method ActualLoad(upage: nat, file: seq<Byte>, kpage: nat, table: Option<nat>) returns (ok: bool)
      requires upage in pt && Seekable(pt[upage]) && pagedir.Valid()
      requires PageTables.PgOfs(upage) == 0 && PageTables.IsUser(upage) && PageTables.KernelPage(kpage)
      requires !PageTables.Has(pagedir.At(upage), PageTables.PTE_P)
      requires table.Some? ==> PageTables.KernelPage(table.value) && table.value !in pagedir.tables
      requires table.Some? || PageDirs.Word(pagedir.pd, PageTables.PdNo(upage)) != 0
      modifies this, pagedir
      ensures ok == Loaded(old(pt)[upage], file).Some?
      ensures pt == if ok then old(pt) else old(pt) - {upage}
      ensures ok ==> frames == old(frames)[kpage := Loaded(old(pt)[upage], file).value]
      ensures pagedir.Valid()
      ensures forall a :: pagedir.At(a)
                == if ok && PageTables.PgNo(a) == PageTables.PgNo(upage)
                   then PageTables.PteCreateUser(kpage, old(pt)[upage].writable) else old(pagedir.At(a))
      ensures forall a: nat :: pagedir.Sees(a)
                == if ok && upage <= a < upage + PGSIZE
                   then Some(PageDirs.Access(kpage - PageTables.PHYS_BASE + (a - upage), old(pt)[upage].writable, true))
                   else old(pagedir.Sees(a))
    {
      hide PageTables.PgNo, PageTables.PdNo, PageTables.Has, PageTables.PteCreateUser, PageDirs.DirOk, PageDirs.Entry,
        PageDirs.Translate;
      var e := pt[upage];
      var got := FileRead(file, e.ofs, e.readBytes);
      if |got| != e.readBytes {
        pt := pt - {upage};
        return false;
      }
      frames := frames[kpage := got + seq(e.zeroBytes, i => 0 as Byte)];
      ok := pagedir.SetPage(upage, kpage, e.writable, table);
    }

    /** The PT_LOAD case of load, for an accepted header: entries for all pages of the segment. */
    method LoadHeader(p: Phdr, fileLength: nat) returns (ok: bool)
      requires IsPhdr(p) && ValidateSegment(p, fileLength)
      modifies this`pt
      ensures forall u :: u in old(pt) ==> u in pt && pt[u] == old(pt)[u]
      ensures forall u :: u in pt && u !in old(pt) ==> OfSegment(p, u) && pt[u] == SegmentEntry(p, u) && pt[u].writable == p.writable
      ensures ok ==> forall a: nat :: p.vaddr <= a < p.vaddr + p.memsz ==> PageTables.PgRoundDown(a) in pt
    {
      hide Mapped, ValidateSegment, ZeroBytes, RoundUp, EntryAt;
      SizesFit(p, fileLength);
      ghost var d;
      ok, d := LoadSegment(FilePage(p), MemPage(p), ReadBytes(p), ZeroBytes(p), p.writable);
      SegmentPages(p, fileLength, old(pt), pt, d);
    }

    /** The first access to an address of the segment's page UPAGE, in a frame KPAGE: when it loads,
        the processor finds every address of the page in the frame, for writing exactly when the
        segment is writable, and the frame holds what the ELF specification says. */
    method Touch(p: Phdr, upage: nat, file: seq<Byte>, kpage: nat, table: Option<nat>) returns (ok: bool)
      requires IsPhdr(p) && ValidateSegment(p, |file|)
      requires upage in pt && OfSegment(p, upage) && pt[upage] == SegmentEntry(p, upage) && Seekable(pt[upage]) && pagedir.Valid()
      requires PageTables.IsUser(upage) && PageTables.KernelPage(kpage) && !PageTables.Has(pagedir.At(upage), PageTables.PTE_P)
      requires table.Some? ==> PageTables.KernelPage(table.value) && table.value !in pagedir.tables
      requires table.Some? || PageDirs.Word(pagedir.pd, PageTables.PdNo(upage)) != 0
      modifies this, pagedir
      ensures pagedir.Valid() && (ok <==> InFile(file, FilePage(p), ReadBytes(p), upage - MemPage(p)))
      ensures ok ==> forall a: nat :: upage <= a < upage + PGSIZE ==>
                pagedir.Sees(a) == Some(PageDirs.Access(kpage - PageTables.PHYS_BASE + (a - upage), p.writable, true))
      ensures ok ==> kpage in frames && HoldsSegment(p, file, upage, frames[kpage])
    {
      hide ValidateSegment, EntryAt, Loaded, ZeroBytes, RoundUp, InFile, ReadBytes, PageTables.PdNo, PageTables.Has, PageDirs.DirOk,
        PageDirs.Entry, PageDirs.Translate;
      EntryOffset(FilePage(p), ReadBytes(p), p.writable, upage - MemPage(p));
      LazyPage(file, FilePage(p), ReadBytes(p), p.writable, upage - MemPage(p));
      PageAligned(p, upage);
      PageHolds(p, file, upage);
      hide HoldsSegment;
      ok := ActualLoad(upage, file, kpage, table);
    }
  }

  /** PAGE, which starts at UPAGE, holds what the ELF specification puts at address A, if A is in the
      page and in the segment. */
  ghost predicate HoldsAt(p: Phdr, file: seq<Byte>, upage: nat, page: seq<Byte>, a: nat)
    requires |page| == PGSIZE
  {
    upage <= a < upage + PGSIZE && p.vaddr <= a < p.vaddr + p.memsz ==>
      && (a - p.vaddr < p.filesz ==> p.offset + (a - p.vaddr) < |file|)
      && page[a - upage] == ElfByte(p, file, a)
  }

  ghost predicate HoldsSegment(p: Phdr, file: seq<Byte>, upage: nat, page: seq<Byte>) {
    |page| == PGSIZE && forall a: nat :: HoldsAt(p, file, upage, page, a)
  }

  lemma PageHolds(p: Phdr, file: seq<Byte>, upage: nat)
    requires IsPhdr(p) && ValidateSegment(p, |file|) && OfSegment(p, upage)
    ensures var page := Loaded(SegmentEntry(p, upage), file); page.Some? ==> HoldsSegment(p, file, upage, page.value)
  {
    hide ValidateSegment, EntryAt, Loaded, ZeroBytes, RoundUp, InFile, ReadBytes;
    var d := upage - MemPage(p);
    LazyPage(file, FilePage(p), ReadBytes(p), p.writable, d);
    var page := Loaded(SegmentEntry(p, upage), file);
    if page.Some? {
      forall a: nat ensures HoldsAt(p, file, upage, page.value, a) {
        if upage <= a < upage + PGSIZE && p.vaddr <= a < p.vaddr + p.memsz {
          SegmentMeaning(p, file, a, d, a - upage);
        }
      }
    }
  }

  /** UPAGE is a page address at or above the segment's first page. */
  predicate OfSegment(p: Phdr, upage: nat) {
    MemPage(p) <= upage && (upage - MemPage(p)) % PGSIZE == 0
  }

  /** The segment's entry for that page. */
  function SegmentEntry(p: Phdr, upage: nat): Entry
    requires OfSegment(p, upage)
  {
    EntryAt(FilePage(p), ReadBytes(p), p.writable, upage - MemPage(p))
  }

  lemma PageAligned(p: Phdr, upage: nat)
    requires OfSegment(p, upage)
    ensures PageTables.PgOfs(upage) == 0
  {
  }

  lemma SegmentPages(p: Phdr, fileLength: nat, was: map<nat, Entry>, pt: map<nat, Entry>, d: nat)
    requires IsPhdr(p) && ValidateSegment(p, fileLength)
    requires Mapped(was, pt, FilePage(p), MemPage(p), ReadBytes(p), p.writable, d)
    ensures forall u :: u in was ==> u in pt && pt[u] == was[u]
    ensures forall u :: u in pt && u !in was ==> OfSegment(p, u) && pt[u] == SegmentEntry(p, u)
    ensures d == ReadBytes(p) + ZeroBytes(p) ==>
              forall a: nat :: p.vaddr <= a < p.vaddr + p.memsz ==> PageTables.PgRoundDown(a) in pt
  {
    hide EntryAt, RoundUp, ReadBytes, ZeroBytes;
    if d == ReadBytes(p) + ZeroBytes(p) {
      SizesFit(p, fileLength);
      hide ValidateSegment;
      forall a: nat | p.vaddr <= a < p.vaddr + p.memsz ensures PageTables.PgRoundDown(a) in pt {
        var x := PageTables.PgRoundDown(a) - MemPage(p);
        assert x % PGSIZE == 0;
        assert MemPage(p) + x in pt;
      }
    }
  }
}
