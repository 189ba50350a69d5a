/** The page allocator: two pools of pages, each with a bitmap of the pages in
    use.  Pages are identified by their page numbers. */
module Palloc {
  import opened Basics
  import opened Blocks
  import opened Bitmaps

  /** Page K of the pool lies in the live range that starts at S. */
  predicate InRange(live: map<nat, nat>, s: nat, k: nat) {
    s in live && s <= k < s + live[s]
  }

  ghost predicate Covered(live: map<nat, nat>, k: nat) {
    exists s :: InRange(live, s, k)
  }

  /** Live ranges are nonempty, inside the pool, apart from each other, and
      exactly what the bitmap marks. */
  ghost predicate LiveOk(live: map<nat, nat>, bits: seq<bool>) {
    && (forall s :: s in live ==> 0 < live[s] && s + live[s] <= |bits|)
    && (forall s, t, k :: InRange(live, s, k) && InRange(live, t, k) ==> s == t)
    && (forall k :: 0 <= k < |bits| ==> (bits[k] <==> Covered(live, k)))
  }

  lemma LiveTaken(live: map<nat, nat>, bits: seq<bool>, i: nat, cnt: nat)
    requires LiveOk(live, bits) && cnt > 0 && Run(bits, i, cnt, false)
    ensures i !in live && LiveOk(live[i := cnt], SetRun(bits, i, cnt, true))
  {
    assert i in live ==> InRange(live, i, i) && Covered(live, i);
    assert !bits[i];
    var live' := live[i := cnt];
    var bits' := SetRun(bits, i, cnt, true);
    forall s, k: nat | InRange(live, s, k) ensures InRange(live', s, k) && !(i <= k < i + cnt) {
      assert Covered(live, k);
    }
    assert forall s, k: nat :: InRange(live', s, k) && s != i ==> InRange(live, s, k);
    forall k | 0 <= k < |bits| ensures bits'[k] <==> Covered(live', k) {
      if i <= k < i + cnt {
        assert InRange(live', i, k);
      } else {
        SameCover(live, live', k);
      }
    }
  }

  lemma SameCover(live: map<nat, nat>, live': map<nat, nat>, k: nat)
    requires forall s :: InRange(live', s, k) <==> InRange(live, s, k)
    ensures Covered(live', k) <==> Covered(live, k)
  {
  }

  lemma LiveFreed(live: map<nat, nat>, bits: seq<bool>, i: nat)
    requires LiveOk(live, bits) && i in live
    ensures Run(bits, i, live[i], true)
    ensures LiveOk(live - {i}, SetRun(bits, i, live[i], false))
  {
    var cnt := live[i];
    var live' := live - {i};
    var bits' := SetRun(bits, i, cnt, false);
    forall k: nat | i <= k < i + cnt ensures bits[k] {
      assert InRange(live, i, k);
      assert Covered(live, k);
    }
    assert forall s, k: nat :: InRange(live', s, k) ==> InRange(live, s, k) && s != i;
    forall k | 0 <= k < |bits| ensures bits'[k] <==> Covered(live', k) {
      if i <= k < i + cnt {
        assert InRange(live, i, k);
      } else {
        SameCover(live, live', k);
      }
    }
  }

  /** The live range that page K lies in. */
  ghost function Owner(live: map<nat, nat>, k: nat): (s: nat)
    requires Covered(live, k)
    ensures InRange(live, s, k)
  {
    var s :| InRange(live, s, k);
    s
  }

  /** The live ranges without the CNT pages from I on: a range that is cut keeps what lies
      before them and what lies after. */
  ghost function Cut(live: map<nat, nat>, i: nat, cnt: nat): map<nat, nat> {
    var e := i + cnt;
    map s | s in live.Keys + {e} && (if s == e then Covered(live, e) else s < i || e < s)
      :: if s == e then Owner(live, e) + live[Owner(live, e)] - e
         else if s < i && s + live[s] > i then i - s
         else live[s]
  }

  lemma CutFrom(live: map<nat, nat>, bits: seq<bool>, i: nat, cnt: nat, s: nat, k: nat)
    requires LiveOk(live, bits) && InRange(Cut(live, i, cnt), s, k)
    ensures !(i <= k < i + cnt)
    ensures if s == i + cnt then k >= s && Covered(live, s) && InRange(live, Owner(live, s), k)
            else InRange(live, s, k) && (s < i ==> k < i)
  {
  }

  lemma CutTo(live: map<nat, nat>, i: nat, cnt: nat, s: nat, k: nat)
    requires (forall s, t, k :: InRange(live, s, k) && InRange(live, t, k) ==> s == t)
    requires InRange(live, s, k) && !(i <= k < i + cnt)
    ensures InRange(Cut(live, i, cnt), if s <= i + cnt <= k then i + cnt else s, k)
  {
    if s <= i + cnt <= k {
      assert InRange(live, s, i + cnt);
      assert Covered(live, i + cnt);
    }
  }

  /** Freeing marked pages, a whole live range or any part of some, takes exactly them out. */
  lemma LiveCut(live: map<nat, nat>, bits: seq<bool>, i: nat, cnt: nat)
    requires LiveOk(live, bits) && cnt > 0 && Run(bits, i, cnt, true)
    ensures LiveOk(Cut(live, i, cnt), SetRun(bits, i, cnt, false))
  {
    var live', bits' := Cut(live, i, cnt), SetRun(bits, i, cnt, false);
    forall s | s in live' ensures 0 < live'[s] && s + live'[s] <= |bits'| {
    }
    hide Cut;
    forall s, t, k | InRange(live', s, k) && InRange(live', t, k) ensures s == t {
      CutFrom(live, bits, i, cnt, s, k);
      CutFrom(live, bits, i, cnt, t, k);
    }
    forall k | 0 <= k < |bits| ensures bits'[k] <==> Covered(live', k) {
      if Covered(live', k) {
        var s :| InRange(live', s, k);
        CutFrom(live, bits, i, cnt, s, k);
      }
      if bits'[k] {
        CutTo(live, i, cnt, Owner(live, k), k);
      }
    }
  }

  function Later(j: nat, k: nat): nat { if j < k then k else j }

  /** The page just behind a live range is in a range only if it starts one. */
  lemma EndOwner(live: map<nat, nat>, bits: seq<bool>, i: nat, o: nat)
    requires LiveOk(live, bits) && i in live && InRange(live, o, i + live[i])
    ensures o == i + live[i]
  {
    assert o < i + live[i] ==> InRange(live, i, Later(i, o)) && InRange(live, o, Later(i, o));
  }

  /** Freeing one whole live range takes that range away. */
  lemma CutWhole(live: map<nat, nat>, bits: seq<bool>, i: nat)
    requires LiveOk(live, bits) && i in live
    ensures Cut(live, i, live[i]) == live - {i}
  {
    var cnt := live[i];
    var e, live' := i + cnt, Cut(live, i, cnt);
    forall s | s in live && s != i ensures s in live' && live'[s] == live[s] {
      assert InRange(live, s, s);
      assert i < s < e ==> InRange(live, i, s);
      assert s < i < s + live[s] ==> InRange(live, s, i) && InRange(live, i, i);
      if s == e {
        assert Covered(live, e);
      }
    }
    forall s | s in live' ensures s in live && s != i {
      if s == e {
        EndOwner(live, bits, i, Owner(live, e));
      }
    }
  }

  /** The live ranges determine the bitmap. */
  lemma LiveDetermines(live: map<nat, nat>, a: seq<bool>, b: seq<bool>)
    requires LiveOk(live, a) && LiveOk(live, b) && |a| == |b|
    ensures a == b
  {
    forall k | 0 <= k < |a| ensures a[k] == b[k] {
      assert a[k] <==> Covered(live, k);
    }
  }

  /** Freeing what was just taken restores the live ranges and the bitmap. */
  lemma TakeFreeRestores(live: map<nat, nat>, bits: seq<bool>, i: nat, cnt: nat)
    requires LiveOk(live, bits) && cnt > 0 && Run(bits, i, cnt, false)
    ensures Cut(live[i := cnt], i, cnt) == live
    ensures SetRun(SetRun(bits, i, cnt, true), i, cnt, false) == bits
  {
    hide LiveOk, Cut;
    LiveTaken(live, bits, i, cnt);
    CutWhole(live[i := cnt], SetRun(bits, i, cnt, true), i);
  }

  /** Pages one bitmap for PAGECNT pages occupies (its two-word header included). */
  function BitmapPages(pageCnt: nat): nat { (8 + 4 * ElemCnt(pageCnt) + 4095) / 4096 }

  class Pool {
    const base: nat
    const usedMap: Bitmap
    ghost var live: map<nat, nat>

    ghost predicate Valid()
      reads this, usedMap, usedMap.words
    {
      usedMap.Valid() && LiveOk(live, usedMap.Bits())
    }

    /** Whether page P of memory is in use. */
    ghost predicate InUse(p: nat)
      requires Valid()
      reads this, usedMap, usedMap.words
    {
      base <= p < base + usedMap.bitCnt && usedMap.Bits()[p - base]
    }

    /** init_pool: FIRST is the first page, PAGECNT the number of pages, the first of which
        hold the bitmap itself. */
    constructor (first: nat, pageCnt: nat)
      requires BitmapPages(pageCnt) <= pageCnt
      ensures Valid() && live == map[]
      ensures base == first + BitmapPages(pageCnt) && usedMap.bitCnt == pageCnt - BitmapPages(pageCnt)
      ensures 8 + 4 * usedMap.words.Length <= 4096 * (base - first) < 8 + 4 * ElemCnt(pageCnt) + 4096
      ensures fresh(usedMap) && fresh(usedMap.words)
    {
      var bmPages := BitmapPages(pageCnt);
      base := first + bmPages;
      live := map[];
      usedMap := new Bitmap(pageCnt - bmPages);
    }

    /** A run of PAGECNT pages, or None when PAGECNT is zero or no run fits. */
    method GetMultiple(pageCnt: nat) returns (r: Option<nat>)
      requires Valid()
      modifies this`live, usedMap.words
      ensures Valid()
      ensures r.None? <==> pageCnt == 0 || forall i :: !Run(old(usedMap.Bits()), i, pageCnt, false)
      ensures r.None? ==> live == old(live) && usedMap.Bits() == old(usedMap.Bits())
      ensures r.Some? ==>
                && r.value >= base
                && IsScan(old(usedMap.Bits()), 0, pageCnt, false, Some(r.value - base))
                && live == old(live)[r.value - base := pageCnt]
                && r.value - base !in old(live)
                && usedMap.Bits() == SetRun(old(usedMap.Bits()), r.value - base, pageCnt, true)
    {
      if pageCnt == 0 {
        return None;
      }
      var idx := usedMap.ScanAndFlip(0, pageCnt, false);
      if idx.None? {
        r := None;
      } else {
        LiveTaken(live, old(usedMap.Bits()), idx.value, pageCnt);
        live := live[idx.value := pageCnt];
        r := Some(base + idx.value);
      }
    }

    /** Frees pages that are all in use: a range that GetMultiple handed out, or part of some. */
    method FreeMultiple(page: nat, pageCnt: nat)
      requires Valid() && page >= base && pageCnt > 0 && Run(usedMap.Bits(), page - base, pageCnt, true)
      modifies this`live, usedMap.words
      ensures Valid()
      ensures live == Cut(old(live), page - base, pageCnt)
      ensures page - base in old(live) && old(live)[page - base] == pageCnt ==> live == old(live) - {page - base}
      ensures usedMap.Bits() == SetRun(old(usedMap.Bits()), page - base, pageCnt, false)
    {
      hide Cut, LiveOk, AllBits;
      LiveCut(live, usedMap.Bits(), page - base, pageCnt);
      if page - base in live && live[page - base] == pageCnt {
        CutWhole(live, usedMap.Bits(), page - base);
      }
      usedMap.SetMultiple(page - base, pageCnt, false);
      live := Cut(live, page - base, pageCnt);
    }
  }

  /** How palloc_init splits FREEPAGES pages: the user pool's share. */
  function UserShare(freePages: nat, userLimit: nat): nat {
    if freePages / 2 > userLimit then userLimit else freePages / 2
  }

  class PageAllocator {
    const kernelPool: Pool
    const userPool: Pool

    ghost predicate Valid()
      reads this, kernelPool, kernelPool.usedMap, kernelPool.usedMap.words,
            userPool, userPool.usedMap, userPool.usedMap.words
    {
      && kernelPool.Valid() && userPool.Valid()
      && kernelPool != userPool && kernelPool.usedMap != userPool.usedMap
      && kernelPool.usedMap.words != userPool.usedMap.words
      && kernelPool.base + kernelPool.usedMap.bitCnt <= userPool.base
    }

    /** palloc_init over the free pages FIRST up to FIRST + FREEPAGES. */
    constructor (first: nat, freePages: nat, userLimit: nat)
      requires BitmapPages(freePages - UserShare(freePages, userLimit)) <= freePages - UserShare(freePages, userLimit)
      requires BitmapPages(UserShare(freePages, userLimit)) <= UserShare(freePages, userLimit)
      ensures Valid() && kernelPool.live == userPool.live == map[]
      ensures first + BitmapPages(freePages - UserShare(freePages, userLimit)) == kernelPool.base
      ensures userPool.base + userPool.usedMap.bitCnt == first + freePages
      ensures var user := if freePages / 2 > userLimit then userLimit else freePages / 2;
              && kernelPool.base + kernelPool.usedMap.bitCnt == first + (freePages - user)
              && userPool.base == first + (freePages - user) + BitmapPages(user)
      ensures fresh(kernelPool) && fresh(userPool)
    {
      var userPages := UserShare(freePages, userLimit);
      var kernelPages := freePages - userPages;
      kernelPool := new Pool(first, kernelPages);
      userPool := new Pool(first + kernelPages, userPages);
    }

    method GetMultiple(user: bool, pageCnt: nat) returns (r: Option<nat>)
      requires Valid()
      modifies kernelPool`live, kernelPool.usedMap.words, userPool`live, userPool.usedMap.words
      ensures Valid()
      ensures r.Some? ==> forall p :: r.value <= p < r.value + pageCnt ==>
                !old(kernelPool.InUse(p)) && !old(userPool.InUse(p))
      ensures r.Some? ==> r.value >= if user then userPool.base else kernelPool.base
      ensures r.Some? ==> if user then userPool.live == old(userPool.live)[r.value - userPool.base := pageCnt]
                                       && kernelPool.live == old(kernelPool.live)
                          else kernelPool.live == old(kernelPool.live)[r.value - kernelPool.base := pageCnt]
                               && userPool.live == old(userPool.live)
      ensures r.None? ==> userPool.live == old(userPool.live) && kernelPool.live == old(kernelPool.live)
      ensures user ==> (r.None? <==> pageCnt == 0 || forall i :: !Run(old(userPool.usedMap.Bits()), i, pageCnt, false))
      ensures !user ==> (r.None? <==> pageCnt == 0 || forall i :: !Run(old(kernelPool.usedMap.Bits()), i, pageCnt, false))
    {
      if user {
        r := userPool.GetMultiple(pageCnt);
      } else {
        r := kernelPool.GetMultiple(pageCnt);
      }
    }

    method PageFromPool(pool: Pool, page: nat) returns (r: bool)
      ensures r == (pool.base <= page < pool.base + pool.usedMap.bitCnt)
    {
      var startPage := pool.base;
      var endPage := startPage + pool.usedMap.bitCnt;
      r := page >= startPage && page < endPage;
    }

    /** Frees pages of either pool, all in use: the page number alone tells which pool. */
    method FreeMultiple(page: nat, pageCnt: nat)
      requires Valid()
      requires pageCnt > 0 ==>
                 || (page >= kernelPool.base && Run(kernelPool.usedMap.Bits(), page - kernelPool.base, pageCnt, true))
                 || (page >= userPool.base && Run(userPool.usedMap.Bits(), page - userPool.base, pageCnt, true))
      modifies kernelPool`live, kernelPool.usedMap.words, userPool`live, userPool.usedMap.words
      ensures Valid()
      ensures if pageCnt == 0 then kernelPool.live == old(kernelPool.live) && userPool.live == old(userPool.live)
              else if page < userPool.base
              then page >= kernelPool.base && kernelPool.live == Cut(old(kernelPool.live), page - kernelPool.base, pageCnt)
                   && userPool.live == old(userPool.live)
              else userPool.live == Cut(old(userPool.live), page - userPool.base, pageCnt)
                   && kernelPool.live == old(kernelPool.live)
    {
      hide Cut, LiveOk, AllBits;
      if pageCnt == 0 {
        return;
      }
      var inKernel := PageFromPool(kernelPool, page);
      if inKernel {
        kernelPool.FreeMultiple(page, pageCnt);
      } else {
        userPool.FreeMultiple(page, pageCnt);
      }
    }
  }
}
