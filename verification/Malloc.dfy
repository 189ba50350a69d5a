/** The block allocator: pages cut into blocks of 16 to 1024 bytes, and runs of
    whole pages for anything bigger.  Memory is counted in bytes; page P starts
    at byte P * 4096. */
module Malloc {
  import opened Basics
  import opened Blocks
  import PageTables
  import Palloc
  import Bitmaps

  const PGSIZE := PageTables.PGSIZE
  /** The size of the header at the start of an arena. */
  const HEADER := 12
  const DESCS := 7
  const WORD_LIMIT := 0x1_0000_0000

  function BlockSize(k: nat): (n: nat)
    requires k < DESCS
    ensures 16 <= n <= 1024
  {
    [16, 32, 64, 128, 256, 512, 1024][k]
  }

  /** blocks_per_arena. */
  function PerArena(k: nat): (n: nat)
    requires k < DESCS
  {
    (PGSIZE - HEADER) / BlockSize(k)
  }

  /** The header of an arena: a page of blocks, or a run of pages that is one block. */
  datatype Arena = Small(desc: nat, freeCnt: nat) | Big(pages: nat)

  /** A block, by its page and its position in the page. */
  datatype Ref = Ref(page: nat, idx: nat)

  ghost predicate OnceEach(xs: seq<Ref>) {
    forall i, j :: 0 <= i < j < |xs| ==> xs[i] != xs[j]
  }

  predicate ArenaShape(a: Arena) {
    a.Small? ==> a.desc < DESCS
  }

  /** A place for a block in an arena. */
  predicate Place(arenas: map<nat, Arena>, r: Ref) {
    && r.page in arenas && ArenaShape(arenas[r.page])
    && r.idx < if arenas[r.page].Small? then PerArena(arenas[r.page].desc) else 1
  }

  ghost predicate ArenasOk(arenas: map<nat, Arena>) {
    forall p :: p in arenas ==> ArenaShape(arenas[p])
  }

  /** The free list of descriptor K: its blocks lie in K's arenas, each listed once. */
  ghost predicate ListOk(arenas: map<nat, Arena>, k: nat, xs: seq<Ref>) {
    && OnceEach(xs)
    && forall r :: r in xs ==> Place(arenas, r) && arenas[r.page].Small? && arenas[r.page].desc == k
  }

  ghost predicate ListsOk(arenas: map<nat, Arena>, free: seq<seq<Ref>>) {
    |free| == DESCS && forall k :: 0 <= k < DESCS ==> ListOk(arenas, k, free[k])
  }

  predicate IsFree(arenas: map<nat, Arena>, free: seq<seq<Ref>>, r: Ref)
    requires |free| == DESCS && Place(arenas, r)
  {
    arenas[r.page].Small? && r in free[arenas[r.page].desc]
  }

  /** Every place is either free or live, and nothing else is live. */
  ghost predicate Split(arenas: map<nat, Arena>, free: seq<seq<Ref>>, live: map<Ref, nat>)
    requires |free| == DESCS
  {
    && (forall r :: r in live ==> Place(arenas, r))
    && (forall r :: Place(arenas, r) ==> (r in live <==> !IsFree(arenas, free, r)))
  }

  /** The free blocks of page P on a list. */
  ghost function FreeOf(xs: seq<Ref>, p: nat): set<Ref> {
    set r | r in xs && r.page == p
  }

  /** Each arena's free_cnt is the number of its blocks on the free list. */
  ghost predicate Counted(arenas: map<nat, Arena>, free: seq<seq<Ref>>)
    requires |free| == DESCS && ArenasOk(arenas)
  {
    forall p :: p in arenas && arenas[p].Small? ==> arenas[p].freeCnt == |FreeOf(free[arenas[p].desc], p)|
  }

  ghost predicate HeapOk(arenas: map<nat, Arena>, free: seq<seq<Ref>>, live: map<Ref, nat>) {
    ArenasOk(arenas) && ListsOk(arenas, free) && Split(arenas, free, live) && Counted(arenas, free)
  }

  /** No arena is wholly free: it would have been given back. */
  ghost predicate InUse(arenas: map<nat, Arena>)
    requires ArenasOk(arenas)
  {
    forall p :: p in arenas && arenas[p].Small? ==> arenas[p].freeCnt < PerArena(arenas[p].desc)
  }

  /** Arenas are ranges that the page allocator has handed out. */
  ghost predicate PagesOk(arenas: map<nat, Arena>, pages: map<nat, nat>, base: nat) {
    forall p :: p in arenas ==> p >= base && p - base in pages && pages[p - base] == PageCount(arenas[p])
  }

  function PageCount(a: Arena): nat {
    if a.Small? then 1 else a.pages
  }

  /** Bytes that a block of arena A has. */
  function Capacity(a: Arena): int
    requires ArenaShape(a)
  {
    if a.Small? then BlockSize(a.desc) else a.pages * PGSIZE - HEADER
  }

  /** Blocks are as large as was asked, whenever the size and a header fit in 32 bits. */
  ghost predicate Roomy(arenas: map<nat, Arena>, live: map<Ref, nat>) {
    forall r :: r in live && Place(arenas, r) && live[r] + HEADER <= WORD_LIMIT ==> live[r] <= Capacity(arenas[r.page])
  }

  // ---- addresses ----

  function Addr(arenas: map<nat, Arena>, r: Ref): nat
    requires Place(arenas, r)
  {
    r.page * PGSIZE + HEADER + (if arenas[r.page].Small? then r.idx * BlockSize(arenas[r.page].desc) else 0)
  }

  /** A block of a page ends inside the page. */
  lemma BlockInPage(k: nat, i: nat)
    requires k < DESCS && i < PerArena(k)
    ensures HEADER + i * BlockSize(k) + BlockSize(k) <= PGSIZE
  {
    var n := BlockSize(k);
    assert PerArena(k) * n <= PGSIZE - HEADER;
    assert (i + 1) * n <= PerArena(k) * n;
  }

  /** block_to_arena: rounding an address down to a page finds its arena, and the
      offset in the page finds the block. */
  lemma AddrBack(arenas: map<nat, Arena>, r: Ref)
    requires Place(arenas, r)
    ensures var a := Addr(arenas, r);
            && a / PGSIZE == r.page && a % PGSIZE >= HEADER
            && (arenas[r.page].Small? ==>
                  (a % PGSIZE - HEADER) / BlockSize(arenas[r.page].desc) == r.idx
                  && (a % PGSIZE - HEADER) % BlockSize(arenas[r.page].desc) == 0)
            && (arenas[r.page].Big? ==> a % PGSIZE == HEADER)
  {
    var a := Addr(arenas, r);
    if arenas[r.page].Small? {
      var k := arenas[r.page].desc;
      BlockInPage(k, r.idx);
      DivPage(r.page, HEADER + r.idx * BlockSize(k));
      DivSize(r.idx, BlockSize(k));
    } else {
      DivPage(r.page, HEADER);
    }
  }

  lemma DivPage(p: nat, o: nat)
    requires o < PGSIZE
    ensures (p * PGSIZE + o) / PGSIZE == p && (p * PGSIZE + o) % PGSIZE == o
  {
  }

  lemma DivSize(i: nat, n: nat)
    requires n > 0
    ensures (i * n) / n == i && (i * n) % n == 0
  {
    Quotient(i * n, n, i, 0);
  }

  lemma Quotient(x: int, n: int, q: int, m: int)
    requires n > 0 && x == q * n + m && 0 <= m < n
    ensures x / n == q && x % n == m
  {
    var d := x / n - q;
    assert x == (x / n) * n + x % n;
    assert d * n == m - x % n;
    assert d > 0 ==> d * n >= n;
    assert d < 0 ==> d * n <= -n;
  }

  /** A block lies in its arena, past the header. */
  lemma BlockInArena(arenas: map<nat, Arena>, r: Ref)
    requires Place(arenas, r)
    ensures r.page * PGSIZE + HEADER <= Addr(arenas, r)
    ensures Addr(arenas, r) + Capacity(arenas[r.page]) <= (r.page + PageCount(arenas[r.page])) * PGSIZE
  {
    if arenas[r.page].Small? {
      BlockInPage(arenas[r.page].desc, r.idx);
    }
  }

  /** Two arenas have no page in common. */
  lemma ArenasApart(arenas: map<nat, Arena>, pages: map<nat, nat>, base: nat, bits: seq<bool>, p: nat, q: nat)
    requires PagesOk(arenas, pages, base) && Palloc.LiveOk(pages, bits) && p in arenas && q in arenas && p < q
    ensures p + PageCount(arenas[p]) <= q
  {
    if p + PageCount(arenas[p]) > q {
      assert Palloc.InRange(pages, p - base, q - base) && Palloc.InRange(pages, q - base, q - base);
    }
  }

  /** Live blocks do not overlap. */
  lemma LiveDisjoint(arenas: map<nat, Arena>, pages: map<nat, nat>, base: nat, bits: seq<bool>, r: Ref, s: Ref)
    requires PagesOk(arenas, pages, base) && Palloc.LiveOk(pages, bits)
    requires Place(arenas, r) && Place(arenas, s) && r != s
    ensures Addr(arenas, r) + Capacity(arenas[r.page]) <= Addr(arenas, s)
         || Addr(arenas, s) + Capacity(arenas[s.page]) <= Addr(arenas, r)
  {
    hide PagesOk, Palloc.LiveOk;
    BlockInArena(arenas, r);
    BlockInArena(arenas, s);
    if r.page < s.page {
      ArenasApart(arenas, pages, base, bits, r.page, s.page);
    } else if s.page < r.page {
      ArenasApart(arenas, pages, base, bits, s.page, r.page);
    } else {
      hide PerArena;
      SlotsApart(r.idx, s.idx, Capacity(arenas[r.page]));
    }
  }

  lemma SlotsApart(i: nat, j: nat, n: nat)
    requires i != j
    ensures i * n + n <= j * n || j * n + n <= i * n
  {
    if i < j {
      assert (i + 1) * n <= j * n;
    } else {
      assert (j + 1) * n <= i * n;
    }
  }

  /** Live blocks do not touch any arena's header. */
  lemma ClearOfHeaders(arenas: map<nat, Arena>, pages: map<nat, nat>, base: nat, bits: seq<bool>, r: Ref, p: nat)
    requires PagesOk(arenas, pages, base) && Palloc.LiveOk(pages, bits) && Place(arenas, r) && p in arenas
    ensures Addr(arenas, r) + Capacity(arenas[r.page]) <= p * PGSIZE || p * PGSIZE + HEADER <= Addr(arenas, r)
  {
    hide PagesOk, Palloc.LiveOk;
    BlockInArena(arenas, r);
    if r.page < p {
      ArenasApart(arenas, pages, base, bits, r.page, p);
    }
  }

  /** The pages malloc asks for, in 32-bit arithmetic. */
  function PagesFor(size: nat): nat {
    ((size + HEADER) % WORD_LIMIT + PGSIZE - 1) % WORD_LIMIT / PGSIZE
  }

  /** A run of pages is big enough for SIZE exactly when SIZE and a header fit in 32 bits. */
  lemma BigEnough(size: nat)
    requires 0 < size < WORD_LIMIT && PagesFor(size) > 0
    ensures size <= PagesFor(size) * PGSIZE - HEADER <==> size + HEADER <= WORD_LIMIT
  {
  }

  /** And no page more than that. */
  lemma FewestPages(size: nat)
    requires 0 < size && size + HEADER <= WORD_LIMIT
    ensures PagesFor(size) > 0 ==> (PagesFor(size) - 1) * PGSIZE < size + HEADER <= PagesFor(size) * PGSIZE
  {
  }

  /** The descriptors' sizes double from 16 up, as long as they are less than half a page. */
  lemma BlockSizes(k: nat)
    requires k < DESCS
    ensures BlockSize(0) == 16 && (k + 1 < DESCS ==> BlockSize(k + 1) == 2 * BlockSize(k))
    ensures BlockSize(k) < PGSIZE / 2 && (k + 1 == DESCS ==> 2 * BlockSize(k) >= PGSIZE / 2)
  {
  }

  /** A page has as many blocks as fit behind its header. */
  lemma ArenaFull(k: nat)
    requires k < DESCS
    ensures HEADER + PerArena(k) * BlockSize(k) <= PGSIZE < HEADER + (PerArena(k) + 1) * BlockSize(k)
  {
  }

  // ---- what each change keeps ----

  lemma ListAt(arenas: map<nat, Arena>, free: seq<seq<Ref>>, k: nat, r: Ref)
    requires ListsOk(arenas, free) && k < DESCS && r in free[k]
    ensures Place(arenas, r) && arenas[r.page].Small? && arenas[r.page].desc == k
  {
    assert ListOk(arenas, k, free[k]);
  }

  /** The heap changes only at page P, whose blocks are K's (or which is one big block). */
  ghost predicate PageChange(arenas: map<nat, Arena>, arenas': map<nat, Arena>, free: seq<seq<Ref>>, xs: seq<Ref>,
                             live: map<Ref, nat>, live': map<Ref, nat>, k: nat, p: nat) {
    && k < DESCS && |free| == DESCS
    && (forall q :: q != p ==> (q in arenas' <==> q in arenas) && (q in arenas ==> arenas'[q] == arenas[q]))
    && (p in arenas && arenas[p].Small? ==> arenas[p].desc == k)
    && (p in arenas' ==> ArenaShape(arenas'[p]))
    && (p in arenas' && arenas'[p].Small? ==> arenas'[p].desc == k && arenas'[p].freeCnt == |FreeOf(xs, p)|)
    && OnceEach(xs)
    && (forall r: Ref :: r.page != p ==> (r in xs <==> r in free[k]) && (r in live' <==> r in live))
    && (forall r: Ref :: r.page == p && r in xs ==> Place(arenas', r) && arenas'[p].Small?)
    && (forall r: Ref :: r.page == p ==> (r in live' <==> Place(arenas', r) && r !in xs))
  }

  lemma ChangeLists(arenas: map<nat, Arena>, arenas': map<nat, Arena>, free: seq<seq<Ref>>, xs: seq<Ref>,
                    live: map<Ref, nat>, live': map<Ref, nat>, k: nat, p: nat)
    requires HeapOk(arenas, free, live) && PageChange(arenas, arenas', free, xs, live, live', k, p)
    ensures ListsOk(arenas', free[k := xs]) && ArenasOk(arenas')
  {
    hide OnceEach, Split, Counted, FreeOf;
    var free' := free[k := xs];
    forall j, r | 0 <= j < DESCS && r in free'[j]
      ensures Place(arenas', r) && arenas'[r.page].Small? && arenas'[r.page].desc == j
    {
      if j != k || r.page != p {
        ListAt(arenas, free, j, r);
      }
    }
    forall j | 0 <= j < DESCS ensures ListOk(arenas', j, free'[j]) {
      assert ListOk(arenas, j, free[j]);
    }
  }

  lemma ChangeSplit(arenas: map<nat, Arena>, arenas': map<nat, Arena>, free: seq<seq<Ref>>, xs: seq<Ref>,
                    live: map<Ref, nat>, live': map<Ref, nat>, k: nat, p: nat)
    requires HeapOk(arenas, free, live) && PageChange(arenas, arenas', free, xs, live, live', k, p)
    ensures Split(arenas', free[k := xs], live')
  {
    hide OnceEach, Counted, FreeOf;
    var free' := free[k := xs];
    forall r | r in live' ensures Place(arenas', r) {
      if r.page != p {
        assert r in live && Place(arenas, r);
      }
    }
    forall r | Place(arenas', r) ensures r in live' <==> !IsFree(arenas', free', r) {
      if r.page != p {
        assert Place(arenas, r);
      }
    }
  }

  lemma ChangeCounted(arenas: map<nat, Arena>, arenas': map<nat, Arena>, free: seq<seq<Ref>>, xs: seq<Ref>,
                      live: map<Ref, nat>, live': map<Ref, nat>, k: nat, p: nat)
    requires HeapOk(arenas, free, live) && PageChange(arenas, arenas', free, xs, live, live', k, p) && ArenasOk(arenas')
    ensures Counted(arenas', free[k := xs])
  {
    hide OnceEach, Split, ListsOk;
    var free' := free[k := xs];
    forall q | q in arenas' && arenas'[q].Small? ensures arenas'[q].freeCnt == |FreeOf(free'[arenas'[q].desc], q)| {
      if q != p {
        assert FreeOf(free'[arenas'[q].desc], q) == FreeOf(free[arenas[q].desc], q);
      }
    }
  }

  lemma ChangeOk(arenas: map<nat, Arena>, arenas': map<nat, Arena>, free: seq<seq<Ref>>, xs: seq<Ref>,
                 live: map<Ref, nat>, live': map<Ref, nat>, k: nat, p: nat)
    requires HeapOk(arenas, free, live) && PageChange(arenas, arenas', free, xs, live, live', k, p)
    ensures HeapOk(arenas', free[k := xs], live')
  {
    ChangeLists(arenas, arenas', free, xs, live, live', k, p);
    ChangeSplit(arenas, arenas', free, xs, live, live', k, p);
    ChangeCounted(arenas, arenas', free, xs, live, live', k, p);
  }

  // ---- the four changes ----

  /** The first N blocks of page P, in order. */
  ghost function Refs(p: nat, n: nat): (xs: seq<Ref>)
    ensures |xs| == n && forall i: nat :: i < n ==> xs[i] == Ref(p, i)
  {
    if n == 0 then [] else Refs(p, n - 1) + [Ref(p, n - 1)]
  }

  ghost function RefSet(p: nat, n: nat): (s: set<Ref>)
    ensures |s| == n && forall r :: r in s <==> r.page == p && r.idx < n
  {
    if n == 0 then {} else RefSet(p, n - 1) + {Ref(p, n - 1)}
  }

  lemma NoRefs(p: nat)
    ensures Refs(p, 0) == []
  {
  }

  lemma NextRef(p: nat, n: nat)
    ensures Refs(p, n + 1) == Refs(p, n) + [Ref(p, n)]
  {
  }

  lemma RefsMember(p: nat, n: nat, r: Ref)
    ensures r in Refs(p, n) <==> r.page == p && r.idx < n
  {
    if r.page == p && r.idx < n {
      assert Refs(p, n)[r.idx] == r;
    }
  }

  /** Appending all the blocks of a new page. */
  lemma PushAll(xs: seq<Ref>, p: nat, n: nat)
    requires OnceEach(xs) && forall r :: r in xs ==> r.page != p
    ensures OnceEach(xs + Refs(p, n)) && |FreeOf(xs + Refs(p, n), p)| == n
    ensures forall r :: r in xs + Refs(p, n) <==> r in xs || (r.page == p && r.idx < n)
  {
    var ys := Refs(p, n);
    forall r ensures r in xs + ys <==> r in xs || (r.page == p && r.idx < n) {
      RefsMember(p, n, r);
    }
    assert FreeOf(xs + ys, p) == RefSet(p, n);
    forall i, j | 0 <= i < j < |xs + ys| ensures (xs + ys)[i] != (xs + ys)[j] {
      assert i < |xs| ==> xs[i] in xs;
    }
  }

  lemma PopFirst(xs: seq<Ref>)
    requires OnceEach(xs) && xs != []
    ensures OnceEach(xs[1..]) && |FreeOf(xs[1..], xs[0].page)| == |FreeOf(xs, xs[0].page)| - 1
    ensures forall r :: r in xs[1..] <==> r in xs && r != xs[0]
  {
    assert xs == [xs[0]] + xs[1..];
    assert FreeOf(xs, xs[0].page) == FreeOf(xs[1..], xs[0].page) + {xs[0]};
  }

  lemma PushFirst(xs: seq<Ref>, r: Ref)
    requires OnceEach(xs) && r !in xs
    ensures OnceEach([r] + xs) && |FreeOf([r] + xs, r.page)| == |FreeOf(xs, r.page)| + 1
  {
    assert FreeOf([r] + xs, r.page) == FreeOf(xs, r.page) + {r};
  }

  lemma SplitAt(arenas: map<nat, Arena>, free: seq<seq<Ref>>, live: map<Ref, nat>, r: Ref)
    requires HeapOk(arenas, free, live)
    ensures r in live <==> Place(arenas, r) && !IsFree(arenas, free, r)
  {
  }

  lemma CountAt(arenas: map<nat, Arena>, free: seq<seq<Ref>>, live: map<Ref, nat>, p: nat)
    requires HeapOk(arenas, free, live) && p in arenas && arenas[p].Small?
    ensures arenas[p].desc < DESCS && arenas[p].freeCnt == |FreeOf(free[arenas[p].desc], p)|
  {
  }

  lemma NewArenaOk(arenas: map<nat, Arena>, free: seq<seq<Ref>>, live: map<Ref, nat>, k: nat, p: nat)
    requires HeapOk(arenas, free, live) && k < DESCS && p !in arenas
    ensures HeapOk(arenas[p := Small(k, PerArena(k))], free[k := free[k] + Refs(p, PerArena(k))], live)
  {
    var n := PerArena(k);
    var arenas', xs := arenas[p := Small(k, n)], free[k] + Refs(p, n);
    assert ListOk(arenas, k, free[k]);
    hide OnceEach, FreeOf, PerArena, Refs, ListsOk, Counted, Split;
    PushAll(free[k], p, n);
    forall r: Ref | r.page == p ensures r !in live {
      SplitAt(arenas, free, live, r);
    }
    hide HeapOk;
    ChangeOk(arenas, arenas', free, xs, live, live, k, p);
  }

  /** A block of descriptor K in page P is live exactly when it is off the list. */
  lemma LiveInPage(arenas: map<nat, Arena>, free: seq<seq<Ref>>, live: map<Ref, nat>, k: nat, p: nat)
    requires HeapOk(arenas, free, live) && k < DESCS && p in arenas && arenas[p].Small? && arenas[p].desc == k
    ensures forall r: Ref :: r.page == p ==> (r in live <==> r.idx < PerArena(k) && r !in free[k])
    ensures forall r: Ref :: r.page == p && r in free[k] ==> r.idx < PerArena(k)
  {
    ListsAt(arenas, free, live);
    hide HeapOk, PerArena;
    forall r: Ref | r.page == p ensures r in live <==> r.idx < PerArena(k) && r !in free[k] {
      SplitAt(arenas, free, live, r);
      ShapeAt(arenas, free, live, p);
    }
    forall r: Ref | r.page == p && r in free[k] ensures r.idx < PerArena(k) {
      ListAt(arenas, free, k, r);
    }
  }

  lemma ShapeAt(arenas: map<nat, Arena>, free: seq<seq<Ref>>, live: map<Ref, nat>, p: nat)
    requires HeapOk(arenas, free, live) && p in arenas
    ensures ArenaShape(arenas[p])
  {
  }

  lemma ListsAt(arenas: map<nat, Arena>, free: seq<seq<Ref>>, live: map<Ref, nat>)
    requires HeapOk(arenas, free, live)
    ensures |free| == DESCS && ListsOk(arenas, free) && forall k :: 0 <= k < DESCS ==> OnceEach(free[k])
  {
    forall k | 0 <= k < DESCS ensures OnceEach(free[k]) {
      assert ListOk(arenas, k, free[k]);
    }
  }

  lemma TakeOk(arenas: map<nat, Arena>, free: seq<seq<Ref>>, live: map<Ref, nat>, k: nat, size: nat)
    requires HeapOk(arenas, free, live) && k < DESCS && free[k] != []
    ensures var r := free[k][0];
            && Place(arenas, r) && arenas[r.page].Small? && arenas[r.page].desc == k && arenas[r.page].freeCnt > 0
            && r !in live
            && HeapOk(arenas[r.page := Small(k, arenas[r.page].freeCnt - 1)], free[k := free[k][1..]], live[r := size])
  {
    hide HeapOk, OnceEach, FreeOf, PerArena, ListsOk;
    ListsAt(arenas, free, live);
    var xs, r := free[k], free[k][0];
    var p := r.page;
    ListAt(arenas, free, k, r);
    CountAt(arenas, free, live, p);
    PopFirst(xs);
    LiveInPage(arenas, free, live, k, p);
    ChangeOk(arenas, arenas[p := Small(k, arenas[p].freeCnt - 1)], free, xs[1..], live, live[r := size], k, p);
  }

  lemma GiveOk(arenas: map<nat, Arena>, free: seq<seq<Ref>>, live: map<Ref, nat>, k: nat, r: Ref)
    requires HeapOk(arenas, free, live) && k < DESCS && r in live && Place(arenas, r)
    requires arenas[r.page].Small? && arenas[r.page].desc == k
    ensures HeapOk(arenas[r.page := Small(k, arenas[r.page].freeCnt + 1)], free[k := [r] + free[k]], live - {r})
  {
    hide HeapOk, OnceEach, FreeOf, PerArena, ListsOk;
    ListsAt(arenas, free, live);
    var xs, p := free[k], r.page;
    CountAt(arenas, free, live, p);
    LiveInPage(arenas, free, live, k, p);
    PushFirst(xs, r);
    ChangeOk(arenas, arenas[p := Small(k, arenas[p].freeCnt + 1)], free, [r] + xs, live, live - {r}, k, p);
  }

  /** An arena all of whose blocks are counted free has no live block. */
  lemma NoneLive(arenas: map<nat, Arena>, free: seq<seq<Ref>>, live: map<Ref, nat>, k: nat, p: nat)
    requires HeapOk(arenas, free, live) && k < DESCS && p in arenas && arenas[p].Small? && arenas[p].desc == k
    ensures arenas[p].freeCnt <= PerArena(k)
    ensures arenas[p].freeCnt == PerArena(k) <==> forall r :: r in live ==> r.page != p
  {
    hide HeapOk, PerArena;
    ListsAt(arenas, free, live);
    CountAt(arenas, free, live, p);
    LiveInPage(arenas, free, live, k, p);
    var s, all := FreeOf(free[k], p), RefSet(p, PerArena(k));
    SubsetSize(s, all);
    if arenas[p].freeCnt < PerArena(k) {
      var r :| r in all && r !in s;
      assert r in live;
    }
  }

  lemma SubsetSize(s: set<Ref>, all: set<Ref>)
    requires s <= all
    ensures |s| <= |all| && (|s| == |all| <==> s == all)
  {
    assert all == s + (all - s);
  }

  /** Giving back page P: YS is K's list without P's blocks. */
  lemma DropOk(arenas: map<nat, Arena>, free: seq<seq<Ref>>, live: map<Ref, nat>, k: nat, p: nat, ys: seq<Ref>)
    requires HeapOk(arenas, free, live) && k < DESCS && p in arenas && arenas[p].Small? && arenas[p].desc == k
    requires arenas[p].freeCnt == PerArena(k)
    requires OnceEach(ys) && forall r :: r in ys <==> r in free[k] && r.page != p
    ensures HeapOk(arenas - {p}, free[k := ys], live)
  {
    hide HeapOk, OnceEach, FreeOf, PerArena, ListsOk;
    ListsAt(arenas, free, live);
    NoneLive(arenas, free, live, k, p);
    ChangeOk(arenas, arenas - {p}, free, ys, live, live, k, p);
  }

  lemma BigOk(arenas: map<nat, Arena>, free: seq<seq<Ref>>, live: map<Ref, nat>, p: nat, pages: nat, size: nat)
    requires HeapOk(arenas, free, live) && p !in arenas
    ensures HeapOk(arenas[p := Big(pages)], free, live[Ref(p, 0) := size]) && Ref(p, 0) !in live
  {
    hide HeapOk, OnceEach, FreeOf, PerArena, ListsOk;
    ListsAt(arenas, free, live);
    assert free[0 := free[0]] == free;
    forall r: Ref | r.page == p ensures r !in live && r !in free[0] {
      SplitAt(arenas, free, live, r);
      if r in free[0] {
        ListAt(arenas, free, 0, r);
      }
    }
    ChangeOk(arenas, arenas[p := Big(pages)], free, free[0], live, live[Ref(p, 0) := size], 0, p);
  }

  lemma BigFreeOk(arenas: map<nat, Arena>, free: seq<seq<Ref>>, live: map<Ref, nat>, p: nat)
    requires HeapOk(arenas, free, live) && p in arenas && arenas[p].Big?
    ensures HeapOk(arenas - {p}, free, live - {Ref(p, 0)})
  {
    hide HeapOk, OnceEach, FreeOf, PerArena, ListsOk;
    ListsAt(arenas, free, live);
    assert free[0 := free[0]] == free;
    forall r: Ref | r.page == p ensures (r in live <==> r == Ref(p, 0)) && r !in free[0] {
      SplitAt(arenas, free, live, r);
      if r in free[0] {
        ListAt(arenas, free, 0, r);
      }
    }
    ChangeOk(arenas, arenas - {p}, free, free[0], live, live - {Ref(p, 0)}, 0, p);
  }

  /** Blocks that stay live stay where they are. */
  ghost predicate Unmoved(arenas: map<nat, Arena>, arenas': map<nat, Arena>, live: map<Ref, nat>) {
    forall r :: r in live && Place(arenas, r) ==>
      Place(arenas', r) && Addr(arenas', r) == Addr(arenas, r) && Capacity(arenas'[r.page]) == Capacity(arenas[r.page])
  }

  /** B is the new block that malloc returns for SIZE bytes. */
  ghost predicate Suits(arenas: map<nat, Arena>, b: Ref, size: nat) {
    && Place(arenas, b)
    && match arenas[b.page]
       case Small(k, _) => size <= BlockSize(k) && (k > 0 ==> BlockSize(k - 1) < size)
       case Big(n) => size > BlockSize(DESCS - 1) && n == PagesFor(size)
  }

  ghost predicate NoRun(bits: seq<bool>, n: nat) {
    forall i :: !Bitmaps.Run(bits, i, n, false)
  }

  lemma SomeBlocks(k: nat)
    requires k < DESCS
    ensures PerArena(k) > 0
  {
  }

  lemma ShapesAt(arenas: map<nat, Arena>, free: seq<seq<Ref>>, live: map<Ref, nat>)
    requires HeapOk(arenas, free, live)
    ensures ArenasOk(arenas) && forall r :: r in live ==> Place(arenas, r)
  {
  }

  /** The rest of the heap's invariant: arenas are in use and handed out, blocks big enough. */
  ghost predicate Side(arenas: map<nat, Arena>, live: map<Ref, nat>, pages: map<nat, nat>, base: nat) {
    ArenasOk(arenas) && InUse(arenas) && PagesOk(arenas, pages, base) && Roomy(arenas, live)
  }

  /** Taking block B of page P, which is new or was in use before. */
  lemma SideTake(was: map<nat, Arena>, arenas: map<nat, Arena>, k: nat, p: nat, b: Ref, live: map<Ref, nat>, size: nat,
                 pages: map<nat, nat>, base: nat)
    requires ArenasOk(was) && InUse(was) && Roomy(was, live) && (forall r :: r in live ==> Place(was, r))
    requires k < DESCS && size <= BlockSize(k) && b.page == p && PagesOk(arenas, pages, base)
    requires p in arenas && arenas[p].Small? && arenas[p].desc == k && 0 < arenas[p].freeCnt
    requires arenas == was || (p !in was && arenas == was[p := arenas[p]] && arenas[p].freeCnt <= PerArena(k))
    ensures var arenas' := arenas[p := Small(k, arenas[p].freeCnt - 1)];
            Side(arenas', live[b := size], pages, base) && Unmoved(was, arenas', live)
  {
    hide PerArena;
  }

  lemma SideBig(arenas: map<nat, Arena>, p: nat, n: nat, live: map<Ref, nat>, size: nat, pages: map<nat, nat>, base: nat)
    requires Side(arenas, live, pages, base) && p !in arenas && (forall r :: r in live ==> Place(arenas, r))
    requires p >= base && p - base in pages && pages[p - base] == n
    requires size + HEADER <= WORD_LIMIT ==> size <= n * PGSIZE - HEADER
    ensures Side(arenas[p := Big(n)], live[Ref(p, 0) := size], pages, base) && Unmoved(arenas, arenas[p := Big(n)], live)
  {
    hide PerArena;
  }

  lemma NewPage(was: map<nat, Arena>, arenas: map<nat, Arena>, pages: map<nat, nat>, base: nat, p: nat)
    requires PagesOk(was, pages, base) && p >= base && p - base in pages
    requires p in arenas && pages[p - base] == PageCount(arenas[p]) && arenas == was[p := arenas[p]]
    ensures PagesOk(arenas, pages, base)
  {
  }

  /** B is the only live block of its page. */
  ghost predicate OnlyOne(live: map<Ref, nat>, b: Ref) {
    forall r :: r in live && r != b ==> r.page != b.page
  }

  lemma SideGive(arenas: map<nat, Arena>, live: map<Ref, nat>, b: Ref, pages: map<nat, nat>, base: nat)
    requires Side(arenas, live, pages, base) && Place(arenas, b) && arenas[b.page].Small?
    requires arenas[b.page].freeCnt + 1 < PerArena(arenas[b.page].desc)
    ensures var arenas' := arenas[b.page := Small(arenas[b.page].desc, arenas[b.page].freeCnt + 1)];
            Side(arenas', live - {b}, pages, base) && Unmoved(arenas, arenas', live - {b})
  {
    hide PerArena;
  }

  lemma SideDrop(arenas: map<nat, Arena>, live: map<Ref, nat>, b: Ref, pages: map<nat, nat>, base: nat)
    requires Side(arenas, live, pages, base) && b.page in arenas && OnlyOne(live, b)
    ensures b.page >= base && Side(arenas - {b.page}, live - {b}, pages - {b.page - base}, base)
    ensures b.page - base in pages && pages[b.page - base] == PageCount(arenas[b.page])
    ensures Unmoved(arenas, arenas - {b.page}, live - {b})
  {
    hide PerArena;
  }

  lemma BigAlone(arenas: map<nat, Arena>, live: map<Ref, nat>, b: Ref)
    requires (forall r :: r in live ==> Place(arenas, r)) && Place(arenas, b) && arenas[b.page].Big?
    ensures OnlyOne(live, b) && b == Ref(b.page, 0)
  {
  }

  /** When every block has been freed, every page has been given back. */
  lemma NothingKept(arenas: map<nat, Arena>, free: seq<seq<Ref>>, live: map<Ref, nat>)
    requires HeapOk(arenas, free, live) && ArenasOk(arenas) && InUse(arenas) && live == map[]
    ensures arenas == map[]
  {
    hide HeapOk, PerArena;
    if p :| p in arenas {
      ShapeAt(arenas, free, live, p);
      if arenas[p].Small? {
        NoneLive(arenas, free, live, arenas[p].desc, p);
      } else {
        SplitAt(arenas, free, live, Ref(p, 0));
      }
      assert false;
    }
  }

  /** There is no block and no page to make one from. */
  ghost predicate Exhausted(free: seq<seq<Ref>>, bits: seq<bool>, size: nat) {
    if size > BlockSize(DESCS - 1) then PagesFor(size) == 0 || NoRun(bits, PagesFor(size))
    else NoRun(bits, 1) && forall k :: 0 <= k < DESCS && k < |free| && IsDesc(k, size) ==> free[k] == []
  }

  /** Descriptor K is the smallest that holds SIZE bytes. */
  predicate IsDesc(k: nat, size: nat)
    requires k < DESCS
  {
    size <= BlockSize(k) && (k > 0 ==> BlockSize(k - 1) < size)
  }

  /** The list without the block R, wherever it is on it. */
  function Unlink(xs: seq<Ref>, r: Ref): (ys: seq<Ref>) {
    if xs == [] then [] else if xs[0] == r then xs[1..] else [xs[0]] + Unlink(xs[1..], r)
  }

  lemma {:induction false} Unlinked(xs: seq<Ref>, r: Ref)
    requires OnceEach(xs)
    ensures OnceEach(Unlink(xs, r)) && forall s :: s in Unlink(xs, r) <==> s in xs && s != r
  {
    if xs != [] {
      assert OnceEach(xs[1..]);
      assert xs == [xs[0]] + xs[1..];
      if xs[0] != r {
        Unlinked(xs[1..], r);
        assert xs[0] !in xs[1..];
      }
    }
  }

  class Heap {
    const pool: Palloc.Pool
    var free: seq<seq<Ref>>
    var arenas: map<nat, Arena>
    ghost var live: map<Ref, nat>

    ghost predicate Valid()
      reads this, pool, pool.usedMap, pool.usedMap.words
    {
      && pool.Valid()
      && HeapOk(arenas, free, live) && Side(arenas, live, pool.live, pool.base)
    }

    /** malloc_init. */
    constructor (p: Palloc.Pool)
      requires p.Valid()
      ensures Valid() && pool == p && live == map[] && arenas == map[]
    {
      pool := p;
      live, arenas := map[], map[];
      free := [];
      new;
      var blockSize := 16;
      while blockSize < PGSIZE / 2
        invariant |free| <= DESCS && blockSize == (if |free| < DESCS then BlockSize(|free|) else 2048)
        invariant (forall k :: 0 <= k < |free| ==> free[k] == []) && arenas == map[] && live == map[]
        decreases PGSIZE / 2 - blockSize
      {
        free := free + [[]];
        blockSize := blockSize * 2;
      }
    }

    /** The smallest descriptor whose blocks hold SIZE bytes, or DESCS. */
    method FindDesc(size: nat) returns (k: nat)
      ensures k <= DESCS && (k < DESCS ==> size <= BlockSize(k)) && (k > 0 ==> BlockSize(k - 1) < size)
    {
      k := 0;
      while k < DESCS && BlockSize(k) < size
        invariant k <= DESCS && (k > 0 ==> BlockSize(k - 1) < size)
      {
        k := k + 1;
      }
    }

    /** N pages from the page allocator. */
    method TakePages(n: nat) returns (r: Option<nat>)
      requires pool.Valid() && PagesOk(arenas, pool.live, pool.base)
      modifies pool`live, pool.usedMap.words
      ensures pool.Valid() && PagesOk(arenas, pool.live, pool.base)
      ensures r.None? <==> n == 0 || NoRun(old(pool.usedMap.Bits()), n)
      ensures r.None? ==> pool.live == old(pool.live)
      ensures r.Some? ==> r.value >= pool.base && r.value !in arenas
                          && pool.live == old(pool.live)[r.value - pool.base := n]
    {
      hide Palloc.LiveOk, Bitmaps.IsScan, Bitmaps.SetRun;
      r := pool.GetMultiple(n);
    }

    /** Makes page A an arena for descriptor K, whose list is empty. */
    method FillArena(k: nat, a: nat)
      requires HeapOk(arenas, free, live) && k < DESCS && free[k] == [] && a !in arenas
      modifies this`free, this`arenas
      ensures HeapOk(arenas, free, live) && arenas == old(arenas)[a := Small(k, PerArena(k))]
      ensures free == old(free)[k := Refs(a, PerArena(k))]
    {
      hide HeapOk, PerArena, Refs;
      ListsAt(arenas, free, live);
      NewArenaOk(arenas, free, live, k, a);
      assert free[k] + Refs(a, PerArena(k)) == Refs(a, PerArena(k));
      arenas := arenas[a := Small(k, PerArena(k))];
      PushBlocks(k, a);
    }

    /** The loop that appends an arena's blocks to its descriptor's list. */
    method PushBlocks(k: nat, a: nat)
      requires |free| == DESCS && k < DESCS
      modifies this`free
      ensures free == old(free)[k := old(free)[k] + Refs(a, PerArena(k))]
    {
      hide PerArena, Refs;
      var i := 0;
      NoRefs(a);
      assert free[k] + [] == free[k] && free[k := free[k]] == free;
      while i < PerArena(k)
        invariant i <= PerArena(k) && |free| == DESCS && free == old(free)[k := old(free)[k] + Refs(a, i)]
      {
        NextRef(a, i);
        assert old(free)[k] + Refs(a, i) + [Ref(a, i)] == old(free)[k] + Refs(a, i + 1);
        free := free[k := free[k] + [Ref(a, i)]];
        i := i + 1;
      }
    }

    /** Takes the first block off K's list. */
    method TakeFirst(k: nat, ghost size: nat) returns (r: Option<nat>, ghost b: Ref)
      requires HeapOk(arenas, free, live) && k < DESCS && free[k] != []
      modifies this`free, this`arenas, this`live
      ensures HeapOk(arenas, free, live)
      ensures Place(old(arenas), b) && Place(arenas, b) && b !in old(live) && live == old(live)[b := size]
      ensures old(arenas)[b.page].Small? && old(arenas)[b.page].desc == k && old(arenas)[b.page].freeCnt > 0
      ensures arenas == old(arenas)[b.page := Small(k, old(arenas)[b.page].freeCnt - 1)]
      ensures free == old(free)[k := old(free)[k][1..]] && b == old(free)[k][0]
      ensures r == Some(Addr(arenas, b))
    {
      ListsAt(arenas, free, live);
      TakeOk(arenas, free, live, k, size);
      hide HeapOk, PerArena;
      b := free[k][0];
      var first := free[k][0];
      free := free[k := free[k][1..]];
      arenas := arenas[first.page := Small(k, arenas[first.page].freeCnt - 1)];
      live := live[b := size];
      r := Some(first.page * PGSIZE + HEADER + first.idx * BlockSize(k));
    }

    /** malloc; B is the block behind the address. */
    method Alloc(size: nat) returns (r: Option<nat>, ghost b: Ref)
      requires Valid() && size < WORD_LIMIT
      modifies this`free, this`arenas, this`live, pool`live, pool.usedMap.words
      ensures Valid()
      ensures r.None? <==> size == 0 || Exhausted(old(free), old(pool.usedMap.Bits()), size)
      ensures r.None? ==> live == old(live) && arenas == old(arenas) && free == old(free) && pool.live == old(pool.live)
      ensures r.Some? ==> b !in old(live) && live == old(live)[b := size] && Suits(arenas, b, size)
                          && r.value == Addr(arenas, b) && Unmoved(old(arenas), arenas, old(live))
    {
      b := Ref(0, 0);
      if size == 0 {
        return None, b;
      }
      var k := FindDesc(size);
      ListsAt(arenas, free, live);
      if k == DESCS {
        r, b := AllocPages(size);
      } else {
        r, b := AllocBlock(k, size);
      }
    }

    /** malloc of more than the largest block. */
    method AllocPages(size: nat) returns (r: Option<nat>, ghost b: Ref)
      requires Valid() && BlockSize(DESCS - 1) < size < WORD_LIMIT
      modifies this`arenas, this`live, pool`live, pool.usedMap.words
      ensures Valid()
      ensures r.None? <==> PagesFor(size) == 0 || NoRun(old(pool.usedMap.Bits()), PagesFor(size))
      ensures r.None? ==> live == old(live) && arenas == old(arenas) && pool.live == old(pool.live)
      ensures r.Some? ==> b !in old(live) && live == old(live)[b := size] && Suits(arenas, b, size)
                          && r.value == Addr(arenas, b) && Unmoved(old(arenas), arenas, old(live))
    {
      hide HeapOk, NoRun, PagesFor, InUse, Roomy, Unmoved, PagesOk;
      ShapesAt(arenas, free, live);
      b := Ref(0, 0);
      var n := PagesFor(size);
      var page := TakePages(n);
      if page.None? {
        return None, b;
      }
      b := Ref(page.value, 0);
      BigOk(arenas, free, live, page.value, n, size);
      BigEnough(size);
      SideBig(arenas, page.value, n, live, size, pool.live, pool.base);
      hide Side;
      arenas := arenas[page.value := Big(n)];
      live := live[b := size];
      r := Some(page.value * PGSIZE + HEADER);
    }

    /** malloc from descriptor K. */
    method AllocBlock(k: nat, size: nat) returns (r: Option<nat>, ghost b: Ref)
      requires Valid() && k < DESCS && 0 < size <= BlockSize(k) && (k > 0 ==> BlockSize(k - 1) < size)
      modifies this`free, this`arenas, this`live, pool`live, pool.usedMap.words
      ensures Valid()
      ensures |old(free)| == DESCS
      ensures r.None? <==> old(free)[k] == [] && NoRun(old(pool.usedMap.Bits()), 1)
      ensures r.None? ==> live == old(live) && arenas == old(arenas) && free == old(free) && pool.live == old(pool.live)
      ensures r.Some? ==> b !in old(live) && live == old(live)[b := size] && Suits(arenas, b, size)
                          && r.value == Addr(arenas, b) && Unmoved(old(arenas), arenas, old(live))
    {
      hide HeapOk, NoRun, PerArena, InUse, Roomy, Unmoved, PagesOk, Palloc.LiveOk;
      ListsAt(arenas, free, live);
      ShapesAt(arenas, free, live);
      b := Ref(0, 0);
      SomeBlocks(k);
      if free[k] == [] {
        var page := TakePages(1);
        if page.None? {
          return None, b;
        }
        FillArena(k, page.value);
        ghost var a := page.value;
        assert free[k][0] == Ref(a, 0);
        NewPage(old(arenas), arenas, pool.live, pool.base, a);
        SideTake(old(arenas), arenas, k, a, Ref(a, 0), live, size, pool.live, pool.base);
      } else {
        TakeOk(arenas, free, live, k, size);
        SideTake(arenas, arenas, k, free[k][0].page, free[k][0], live, size, pool.live, pool.base);
      }
      hide Side;
      r, b := TakeFirst(k, size);
    }

    /** The loop that takes all of page A's blocks off K's list. */
    method UnlinkBlocks(k: nat, a: nat)
      requires |free| == DESCS && k < DESCS && OnceEach(free[k])
      requires forall r :: r in free[k] && r.page == a ==> r.idx < PerArena(k)
      modifies this`free
      ensures |free| == DESCS && free == old(free)[k := free[k]] && OnceEach(free[k])
      ensures forall r :: r in free[k] <==> r in old(free)[k] && r.page != a
    {
      hide PerArena, OnceEach, Unlink;
      var i := 0;
      while i < PerArena(k)
        invariant i <= PerArena(k) && |free| == DESCS && free == old(free)[k := free[k]] && OnceEach(free[k])
        invariant forall r :: r in free[k] <==> r in old(free)[k] && !(r.page == a && r.idx < i)
      {
        Unlinked(free[k], Ref(a, i));
        free := free[k := Unlink(free[k], Ref(a, i))];
        i := i + 1;
      }
    }

    /** free of a block of a page of blocks. */
    method FreeBlock(b: Ref)
      requires Valid() && b in live && Place(arenas, b) && arenas[b.page].Small?
      modifies this`free, this`arenas, this`live, pool`live, pool.usedMap.words
      ensures Valid() && live == old(live) - {b} && Unmoved(old(arenas), arenas, live)
      ensures pool.live == if OnlyOne(old(live), b) then old(pool.live) - {b.page - pool.base} else old(pool.live)
    {
      hide HeapOk, PerArena, Side, OnceEach;
      var a := b.page;
      var k, cnt := arenas[a].desc, arenas[a].freeCnt;
      ListsAt(arenas, free, live);
      GiveOk(arenas, free, live, k, b);
      free := free[k := [b] + free[k]];
      arenas := arenas[a := Small(k, cnt + 1)];
      live := live - {b};
      NoneLive(arenas, free, live, k, a);
      if cnt + 1 >= PerArena(k) {
        ListsAt(arenas, free, live);
        LiveInPage(arenas, free, live, k, a);
        ghost var was := free;
        UnlinkBlocks(k, a);
        DropOk(arenas, was, live, k, a, free[k]);
        SideDrop(old(arenas), old(live), b, pool.live, pool.base);
        assert arenas - {a} == old(arenas) - {a};
        arenas := arenas - {a};
        Palloc.LiveFreed(pool.live, pool.usedMap.Bits(), a - pool.base);
        pool.FreeMultiple(a, 1);
      } else {
        SideGive(old(arenas), old(live), b, pool.live, pool.base);
      }
    }

    /** free of a run of pages. */
    method FreePages(b: Ref)
      requires Valid() && b in live && Place(arenas, b) && arenas[b.page].Big?
      modifies this`arenas, this`live, pool`live, pool.usedMap.words
      ensures Valid() && live == old(live) - {b} && Unmoved(old(arenas), arenas, live)
      ensures pool.live == old(pool.live) - {b.page - pool.base} && OnlyOne(old(live), b)
    {
      hide HeapOk, PerArena, Side, OnlyOne;
      ShapesAt(arenas, free, live);
      BigFreeOk(arenas, free, live, b.page);
      BigAlone(arenas, live, b);
      SideDrop(arenas, live, b, pool.live, pool.base);
      Palloc.LiveFreed(pool.live, pool.usedMap.Bits(), b.page - pool.base);
      pool.FreeMultiple(b.page, arenas[b.page].pages);
      arenas := arenas - {b.page};
      live := live - {b};
    }

    /** free of the block B at address P: its page goes back exactly when no other block of it is live. */
    method Free(p: nat, ghost b: Ref)
      requires Valid() && b in live && Place(arenas, b) && p == Addr(arenas, b)
      modifies this`free, this`arenas, this`live, pool`live, pool.usedMap.words
      ensures Valid() && live == old(live) - {b} && Unmoved(old(arenas), arenas, live)
      ensures pool.live == if OnlyOne(old(live), b) then old(pool.live) - {b.page - pool.base} else old(pool.live)
    {
      hide HeapOk, PerArena, Side, OnlyOne, Unmoved;
      AddrBack(arenas, b);
      var page := p / PGSIZE;
      match arenas[page] {
        case Small(k, _) => FreeBlock(Ref(page, (p % PGSIZE - HEADER) / BlockSize(k)));
        case Big(_) => FreePages(Ref(page, 0));
      }
    }

    /** realloc: P is the old block, B, or null; NB is the new block. */
    method Realloc(p: Option<nat>, newSize: nat, ghost b: Ref) returns (r: Option<nat>, ghost nb: Ref)
      requires Valid() && newSize < WORD_LIMIT
      requires p.Some? ==> b in live && Place(arenas, b) && p.value == Addr(arenas, b)
      modifies this`free, this`arenas, this`live, pool`live, pool.usedMap.words
      ensures Valid()
      ensures r.Some? ==> nb !in old(live) && live == (if p.Some? then old(live) - {b} else old(live))[nb := newSize]
                          && Place(arenas, nb) && r.value == Addr(arenas, nb)
      ensures r.None? ==> live == if newSize == 0 && p.Some? then old(live) - {b} else old(live)
      ensures r.None? <==> newSize == 0 || Exhausted(old(free), old(pool.usedMap.Bits()), newSize)
    {
      hide HeapOk, PerArena, Side, OnlyOne, Exhausted;
      if newSize == 0 {
        if p.Some? {
          Free(p.value, b);
        }
        r, nb := None, b;
      } else {
        r, nb := Alloc(newSize);
        if p.Some? && r.Some? {
          Free(p.value, b);
          assert (old(live)[nb := newSize]) - {b} == (old(live) - {b})[nb := newSize];
        }
      }
    }
  }
}
