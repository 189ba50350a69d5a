/** How well buffer_cache_lru_eviction does what its name says.  It compares
    access times, and only writes set them, so each slot is given the time of its
    last use, read or write, and the slot the code evicts is compared with the
    one used longest ago. */
module CacheUse {
  import opened Blocks
  import opened BufferCache

  ghost predicate AllUsed(slots: seq<Slot>) {
    forall k :: 0 <= k < |slots| ==> slots[k].used
  }

  /** USE[K] is the time of slot K's last use, not before its last write and not after NOW. */
  ghost predicate Timed(slots: seq<Slot>, use: seq<int>, now: int) {
    |use| == |slots| && forall k :: 0 <= k < |slots| ==> slots[k].accessTime <= use[k] <= now
  }

  /** No slot was used longer ago than slot I. */
  ghost predicate LeastRecent(use: seq<int>, i: nat) {
    i < |use| && forall k :: 0 <= k < |use| ==> use[i] <= use[k]
  }

  /** No slot was used as recently as slot I. */
  ghost predicate MostRecent(use: seq<int>, i: nat) {
    i < |use| && forall k :: 0 <= k < |use| && k != i ==> use[k] < use[i]
  }

  /** Every slot's last use was a write. */
  ghost predicate OnlyWritten(slots: seq<Slot>, use: seq<int>) {
    |use| == |slots| && forall k :: 0 <= k < |slots| ==> use[k] == slots[k].accessTime
  }

  lemma VictimUnique(slots: seq<Slot>, i: nat, j: nat)
    requires IsVictim(slots, i) && IsVictim(slots, j)
    ensures i == j
  {
  }

  /** A victim that has not been read since it was written is the least recently used. */
  lemma UnreadVictim(slots: seq<Slot>, use: seq<int>, now: int, i: nat)
    requires AllUsed(slots) && Timed(slots, use, now) && IsVictim(slots, i)
    requires use[i] == slots[i].accessTime
    ensures LeastRecent(use, i)
  {
  }

  /** A read leaves the choice of victim as it was. */
  lemma ReadKeepsVictim(slots: seq<Slot>, slots': seq<Slot>, s: Word, i: nat, v: nat)
    requires AllUsed(slots) && ServedRead(slots, slots', s, i)
    ensures AllUsed(slots') && (IsVictim(slots', v) <==> IsVictim(slots, v))
  {
    assert forall k :: 0 <= k < |slots| ==> slots'[k].accessTime == slots[k].accessTime;
  }

  /** After a read at a later time the victim is the same slot, and if it was the least
      recently used one it still is exactly when some other slot served the read. */
  lemma ReadNext(slots: seq<Slot>, slots': seq<Slot>, use: seq<int>, now: int, s: Word, i: nat, t: int, v: nat)
    requires AllUsed(slots) && |slots| > 1 && Timed(slots, use, now) && now < t && IsVictim(slots, v) && LeastRecent(use, v)
    requires ServedRead(slots, slots', s, i)
    ensures IsVictim(slots', v) && Timed(slots', use[i := t], t)
    ensures LeastRecent(use[i := t], v) <==> i != v
  {
    ReadKeepsVictim(slots, slots', s, i, v);
    var k := if v == 0 then 1 else 0;
    assert i == v ==> use[i := t][k] < use[i := t][v];
  }

  /** The failing input: in a full cache, a read of a sector that is not cached.  The slot it
      is loaded into is at once the most recently used one and the next to be evicted. */
  lemma ReadMissNext(slots: seq<Slot>, slots': seq<Slot>, use: seq<int>, now: int, s: Word, i: nat, t: int)
    requires AllUsed(slots) && Timed(slots, use, now) && now < t
    requires ServedRead(slots, slots', s, i) && Find(slots, s, 0) == -1
    ensures IsVictim(slots', i) && slots'[i].secNum == s && MostRecent(use[i := t], i)
  {
    ReadKeepsVictim(slots, slots', s, i, i);
  }

  /** Writes keep the access times equal to the times of last use. */
  lemma WriteKeeps(slots: seq<Slot>, slots': seq<Slot>, use: seq<int>, s: Word, i: nat, t: int)
    requires OnlyWritten(slots, use) && ServedWrite(slots, slots', s, t, i)
    ensures OnlyWritten(slots', use[i := t]) && (AllUsed(slots) ==> AllUsed(slots'))
  {
  }

  /** One request at time T turns slots SLOTS into SLOTS', served by slot I. */
  ghost predicate Requested(slots: seq<Slot>, slots': seq<Slot>, isRead: bool, s: Word, t: int, i: nat) {
    if isRead then ServedRead(slots, slots', s, i) else ServedWrite(slots, slots', s, t, i)
  }

  /** For every full cache and every request, hit or miss: the next victim W is the least
      recently used slot if and only if no slot but the one that served the request was used
      before W's last use, which is now if W itself served it. */
  lemma NextVictimLru(slots: seq<Slot>, slots': seq<Slot>, use: seq<int>, now: int,
                      isRead: bool, s: Word, t: int, i: nat, w: nat)
    requires AllUsed(slots) && Timed(slots, use, now) && now <= t
    requires Requested(slots, slots', isRead, s, t, i) && IsVictim(slots', w)
    ensures LeastRecent(use[i := t], w)
            <==> forall k :: 0 <= k < |use| && k != i ==> (if w == i then t else use[w]) <= use[k]
  {
    var use' := use[i := t];
    assert forall k :: 0 <= k < |use| && k != i ==> use'[k] == use[k];
  }

  /** TRACE is a run of reads of the given sectors; SERVED says which slots served them. */
  ghost predicate IsReadRun(trace: seq<seq<Slot>>, sectors: seq<Word>, served: seq<nat>) {
    && |trace| == |sectors| + 1 && |served| == |sectors|
    && forall n :: 0 <= n < |sectors| ==> ServedRead(trace[n], trace[n + 1], sectors[n], served[n])
  }

  /** However many sectors are read through a full cache, all misses go through one slot, V;
      the other 63 keep what they held. */
  lemma {:induction false} ReadsShareSlot(trace: seq<seq<Slot>>, sectors: seq<Word>, served: seq<nat>, v: nat, n: nat)
    requires IsReadRun(trace, sectors, served) && AllUsed(trace[0]) && IsVictim(trace[0], v) && n <= |sectors|
    ensures AllUsed(trace[n]) && IsVictim(trace[n], v) && |trace[n]| == |trace[0]|
    ensures forall k :: 0 <= k < |trace[0]| && k != v ==> trace[n][k] == trace[0][k]
    ensures n < |sectors| && Find(trace[n], sectors[n], 0) == -1 ==> served[n] == v
  {
    hide IsVictim;
    if n > 0 {
      ReadsShareSlot(trace, sectors, served, v, n - 1);
      assert ServedRead(trace[n - 1], trace[(n - 1) + 1], sectors[n - 1], served[n - 1]);
      ReadKeepsVictim(trace[n - 1], trace[n], sectors[n - 1], served[n - 1], v);
      MissAtVictim(trace[n - 1], trace[n], sectors[n - 1], served[n - 1], v);
    }
    if n < |sectors| {
      assert ServedRead(trace[n], trace[n + 1], sectors[n], served[n]);
      MissAtVictim(trace[n], trace[n + 1], sectors[n], served[n], v);
    }
  }

  lemma MissAtVictim(slots: seq<Slot>, slots': seq<Slot>, s: Word, i: nat, v: nat)
    requires ServedRead(slots, slots', s, i) && IsVictim(slots, v)
    ensures Find(slots, s, 0) == -1 ==> i == v
    ensures forall k :: 0 <= k < |slots| && k != v ==> slots'[k] == slots[k]
  {
    if Find(slots, s, 0) == -1 {
      VictimUnique(slots, i, v);
    }
  }

  // ---- runs of reads and writes ----

  /** The cache with the time of each slot's last use, at time NOW. */
  datatype Uses = Uses(slots: seq<Slot>, use: seq<int>, now: int)

  /** A request at a time, and the slot that serves it. */
  datatype Req = Req(isRead: bool, sector: Word, time: int, slot: nat)

  ghost predicate DistinctSectors(slots: seq<Slot>) {
    forall i, j :: 0 <= i < j < |slots| ==> slots[i].secNum != slots[j].secNum
  }

  /** A full cache. */
  ghost predicate Full(u: Uses) {
    AllUsed(u.slots) && DistinctSectors(u.slots) && Timed(u.slots, u.use, u.now)
  }

  ghost predicate Follows(u: Uses, r: Req, u': Uses) {
    && u.now <= r.time == u'.now
    && Requested(u.slots, u'.slots, r.isRead, r.sector, r.time, r.slot)
    && r.slot < |u.use| && u'.use == u.use[r.slot := r.time]
  }

  ghost predicate IsRun(trace: seq<Uses>, reqs: seq<Req>) {
    |trace| == |reqs| + 1 && forall n :: 0 <= n < |reqs| ==> Follows(trace[n], reqs[n], trace[n + 1])
  }

  lemma FollowsFull(u: Uses, r: Req, u': Uses)
    requires Full(u) && Follows(u, r, u')
    ensures Full(u') && |u'.slots| == |u.slots|
  {
    var i := r.slot;
    forall k | 0 <= k < |u.slots| && k != i ensures u'.slots[k].secNum != r.sector {
      assert Find(u.slots, r.sector, 0) != -1 ==> u.slots[i].secNum == r.sector;
    }
    assert forall k :: 0 <= k < |u.slots| && k != i ==> u'.slots[k] == u.slots[k] && u'.use[k] == u.use[k];
  }

  lemma {:induction false} RunFull(trace: seq<Uses>, reqs: seq<Req>, n: nat)
    requires IsRun(trace, reqs) && Full(trace[0]) && n <= |reqs|
    ensures Full(trace[n]) && |trace[n].slots| == |trace[0].slots|
  {
    hide Full, Follows;
    if n > 0 {
      RunFull(trace, reqs, n - 1);
      assert Follows(trace[n - 1], reqs[n - 1], trace[(n - 1) + 1]);
      FollowsFull(trace[n - 1], reqs[n - 1], trace[n]);
    }
  }

  /** Eviction takes slot J before slot K: by access time, and by position when the times are equal. */
  ghost predicate Before(slots: seq<Slot>, j: int, k: int) {
    && 0 <= j < |slots| && 0 <= k < |slots|
    && (slots[j].accessTime < slots[k].accessTime || (slots[j].accessTime == slots[k].accessTime && j < k))
  }

  /** Slots are evicted in the order of their last use. */
  ghost predicate Agrees(u: Uses) {
    |u.use| == |u.slots| && forall j, k :: Before(u.slots, j, k) ==> u.use[j] <= u.use[k]
  }

  ghost predicate VictimLru(u: Uses) {
    forall w :: IsVictim(u.slots, w) ==> LeastRecent(u.use, w)
  }

  lemma AgreesVictim(u: Uses)
    requires Full(u) && Agrees(u)
    ensures VictimLru(u)
  {
    forall w: nat | IsVictim(u.slots, w) ensures LeastRecent(u.use, w) {
      assert forall k :: 0 <= k < |u.slots| && k != w ==> Before(u.slots, w, k);
    }
  }

  lemma WrittenAgrees(u: Uses)
    requires OnlyWritten(u.slots, u.use)
    ensures Agrees(u)
  {
  }

  /** The one thing that spoils the order: a read served by a slot with others behind it in the
      order of eviction, unless all of those were used in this very tick. */
  ghost predicate KeepsOrder(u: Uses, r: Req) {
    r.isRead ==> forall k :: 0 <= k < |u.use| && Before(u.slots, r.slot, k) ==> u.use[k] == r.time
  }

  /** A request keeps the order if and only if it is a write, hit or miss, or such a read. */
  lemma StepAgrees(u: Uses, r: Req, u': Uses)
    requires Full(u) && Agrees(u) && Follows(u, r, u')
    ensures Agrees(u') <==> KeepsOrder(u, r)
  {
    var i := r.slot;
    assert forall k :: 0 <= k < |u.slots| && k != i ==> u'.slots[k] == u.slots[k] && u'.use[k] == u.use[k];
    if r.isRead {
      ReadAgrees(u, r, u');
    } else {
      WriteAgrees(u, r, u');
    }
  }

  lemma ReadAgrees(u: Uses, r: Req, u': Uses)
    requires Full(u) && Agrees(u) && Follows(u, r, u') && r.isRead
    ensures Agrees(u') <==> KeepsOrder(u, r)
  {
    var i := r.slot;
    assert forall k :: 0 <= k < |u.slots| ==> u'.slots[k].accessTime == u.slots[k].accessTime;
    assert forall j, k :: Before(u'.slots, j, k) <==> Before(u.slots, j, k);
    if KeepsOrder(u, r) {
      forall j, k | Before(u'.slots, j, k) ensures u'.use[j] <= u'.use[k] {
        assert Before(u.slots, j, k);
      }
    } else {
      var k :| 0 <= k < |u.use| && Before(u.slots, i, k) && u.use[k] != r.time;
      assert Before(u'.slots, i, k) && u'.use[k] < u'.use[i];
    }
  }

  lemma WriteAgrees(u: Uses, r: Req, u': Uses)
    requires Full(u) && Agrees(u) && Follows(u, r, u') && !r.isRead
    ensures Agrees(u')
  {
    forall j, k | Before(u'.slots, j, k) ensures u'.use[j] <= u'.use[k] {
      if j != r.slot && k != r.slot { assert Before(u.slots, j, k); }
    }
  }

  /** Over any run from a cache whose order agrees: it agrees throughout if and only if every
      request of the run keeps it. */
  lemma RunAgrees(trace: seq<Uses>, reqs: seq<Req>)
    requires IsRun(trace, reqs) && Full(trace[0]) && Agrees(trace[0])
    ensures (forall n :: 0 <= n <= |reqs| ==> Agrees(trace[n])) <==> (forall n :: 0 <= n < |reqs| ==> KeepsOrder(trace[n], reqs[n]))
  {
    hide Full, Follows, Agrees, KeepsOrder;
    if forall n :: 0 <= n <= |reqs| ==> Agrees(trace[n]) {
      forall n | 0 <= n < |reqs| ensures KeepsOrder(trace[n], reqs[n]) {
        RunFull(trace, reqs, n);
        assert Follows(trace[n], reqs[n], trace[n + 1]);
        StepAgrees(trace[n], reqs[n], trace[n + 1]);
      }
    }
    if forall n :: 0 <= n < |reqs| ==> KeepsOrder(trace[n], reqs[n]) {
      forall n | 0 <= n <= |reqs| ensures Agrees(trace[n]) {
        KeptAgrees(trace, reqs, n);
      }
    }
  }

  lemma {:induction false} KeptAgrees(trace: seq<Uses>, reqs: seq<Req>, n: nat)
    requires IsRun(trace, reqs) && Full(trace[0]) && Agrees(trace[0]) && n <= |reqs|
    requires forall m :: 0 <= m < |reqs| ==> KeepsOrder(trace[m], reqs[m])
    ensures Agrees(trace[n])
  {
    hide Full, Follows, Agrees, KeepsOrder;
    if n > 0 {
      KeptAgrees(trace, reqs, n - 1);
      RunFull(trace, reqs, n - 1);
      assert Follows(trace[n - 1], reqs[n - 1], trace[(n - 1) + 1]);
      StepAgrees(trace[n - 1], reqs[n - 1], trace[n]);
    }
  }

  ghost predicate IsWriteRun(trace: seq<Uses>, reqs: seq<Req>) {
    IsRun(trace, reqs) && forall n :: 0 <= n < |reqs| ==> !reqs[n].isRead
  }

  /** The victim is the least recently used slot, and stays so whatever is written next. */
  ghost predicate LruFromHere(u: Uses) {
    forall trace, reqs :: IsWriteRun(trace, reqs) && trace[0] == u ==> VictimLru(trace[|reqs|])
  }

  /** A write of the sector that slot M holds. */
  ghost function Rewrite(u: Uses, m: nat, t: int): Uses
    requires m < |u.slots| == |u.use|
  {
    Uses(u.slots[m := u.slots[m].(dirty := true, accessTime := t)], u.use[m := t], t)
  }

  lemma RewriteFollows(u: Uses, m: nat, t: int)
    requires Full(u) && m < |u.slots| && u.now <= t
    ensures Follows(u, Req(false, u.slots[m].secNum, t, m), Rewrite(u, m, t))
  {
    var f := Find(u.slots, u.slots[m].secNum, 0);
    assert f != -1 && f == m;
  }

  /** After slots below M: those evicted before J have been written at time T, the others are as before. */
  ghost predicate Moved(u: Uses, u': Uses, j: nat, m: nat, t: int) {
    && |u'.slots| == |u.slots| == |u.use| == |u'.use| && u.now <= u'.now <= t
    && forall k :: 0 <= k < |u.slots| ==>
         if k < m && Before(u.slots, k, j) then u'.slots[k].accessTime == t && u'.use[k] == t
         else u'.slots[k].accessTime == u.slots[k].accessTime && u'.use[k] == u.use[k]
  }

  lemma {:induction false} MoveEarlier(u: Uses, j: nat, m: nat, t: int) returns (trace: seq<Uses>, reqs: seq<Req>)
    requires Full(u) && j < |u.slots| && m <= |u.slots| && u.now <= t
    ensures IsWriteRun(trace, reqs) && trace[0] == u && Moved(u, trace[|reqs|], j, m, t)
  {
    hide Full, Follows;
    if m == 0 {
      trace, reqs := [u], [];
      assert Timed(u.slots, u.use, u.now) by { FullTimed(u); }
    } else {
      trace, reqs := MoveEarlier(u, j, m - 1, t);
      if Before(u.slots, m - 1, j) {
        var n := |reqs|;
        var u1 := trace[n];
        RunFull(trace, reqs, n);
        RewriteFollows(u1, m - 1, t);
        var r := Req(false, u1.slots[m - 1].secNum, t, m - 1);
        var trace', reqs' := trace + [Rewrite(u1, m - 1, t)], reqs + [r];
        forall k | 0 <= k < |reqs'| ensures Follows(trace'[k], reqs'[k], trace'[k + 1]) && !reqs'[k].isRead {
          if k < n { assert Follows(trace[k], reqs[k], trace[k + 1]); }
        }
        trace, reqs := trace', reqs';
      }
    }
  }

  lemma FullTimed(u: Uses)
    requires Full(u)
    ensures Timed(u.slots, u.use, u.now)
  {
  }

  /** If J is evicted before K but was used later, then after some writes J is the victim and not
      the least recently used slot: a read hit can spoil an eviction that is many requests away. */
  lemma DisagreesFails(u: Uses, j: nat, k: nat) returns (trace: seq<Uses>, reqs: seq<Req>)
    requires Full(u) && Before(u.slots, j, k) && u.use[k] < u.use[j]
    ensures IsWriteRun(trace, reqs) && trace[0] == u
    ensures IsVictim(trace[|reqs|].slots, j) && !LeastRecent(trace[|reqs|].use, j)
  {
    trace, reqs := MoveEarlier(u, j, |u.slots|, u.now + 1);
    var u' := trace[|reqs|];
    RunFull(trace, reqs, |reqs|);
    hide Follows;
    assert u'.use[j] == u.use[j] && u'.use[k] == u.use[k];
  }

  /** Exactly when eviction is least-recently-used, now and however the cache is written next:
      the order of access times agrees with the order of last uses. */
  lemma AgreesExactly(u: Uses)
    requires Full(u)
    ensures Agrees(u) <==> LruFromHere(u)
  {
    hide Full, Follows, VictimLru;
    if Agrees(u) {
      forall trace, reqs | IsWriteRun(trace, reqs) && trace[0] == u ensures VictimLru(trace[|reqs|]) {
        KeptAgrees(trace, reqs, |reqs|);
        RunFull(trace, reqs, |reqs|);
        AgreesVictim(trace[|reqs|]);
      }
    } else {
      NotLru(u);
    }
  }

  lemma NotLru(u: Uses)
    requires Full(u) && !Agrees(u)
    ensures !LruFromHere(u)
  {
    var j, k :| Before(u.slots, j, k) && u.use[j] > u.use[k];
    var trace, reqs := DisagreesFails(u, j, k);
    assert !VictimLru(trace[|reqs|]);
  }

  /** Over every run of reads and writes from any full cache: every victim, in the run and under
      any further writes from any of its states, is the least recently used slot if and only if
      the order agreed at the start and every read was served by the slot last in the order of
      eviction, or by one behind which all slots were used in the same tick. */
  lemma RunLru(trace: seq<Uses>, reqs: seq<Req>)
    requires IsRun(trace, reqs) && Full(trace[0])
    ensures (forall n :: 0 <= n <= |reqs| ==> LruFromHere(trace[n]))
            <==> Agrees(trace[0]) && forall n :: 0 <= n < |reqs| ==> KeepsOrder(trace[n], reqs[n])
  {
    hide Full, Follows, Agrees, KeepsOrder, LruFromHere;
    forall n | 0 <= n <= |reqs| ensures Agrees(trace[n]) <==> LruFromHere(trace[n]) {
      RunFull(trace, reqs, n);
      AgreesExactly(trace[n]);
    }
    if Agrees(trace[0]) {
      RunAgrees(trace, reqs);
    }
  }

  /** In such a run every victim is the least recently used slot. */
  lemma KeptLru(trace: seq<Uses>, reqs: seq<Req>, n: nat)
    requires IsRun(trace, reqs) && Full(trace[0]) && Agrees(trace[0]) && n <= |reqs|
    requires forall m :: 0 <= m < |reqs| ==> KeepsOrder(trace[m], reqs[m])
    ensures VictimLru(trace[n])
  {
    hide Full, Follows, Agrees, KeepsOrder;
    KeptAgrees(trace, reqs, n);
    RunFull(trace, reqs, n);
    AgreesVictim(trace[n]);
  }

  /** The cache with the time of each slot's last use. */
  class UsedCache {
    const cache: Cache
    ghost var lastUse: seq<int>
    ghost var now: int

    ghost predicate Valid()
      reads this, cache, cache.slots
    {
      cache.Valid() && Timed(cache.slots[..], lastUse, now)
    }

    ghost function State(): Uses
      reads this, cache, cache.slots
    {
      Uses(cache.slots[..], lastUse, now)
    }

    /** When all slots are used, this is a full cache as the lemmas on runs take it. */
    lemma FullState()
      requires Valid() && AllUsed(cache.slots[..])
      ensures Full(State())
    {
    }

    /** buffer_cache_init: all access times are 0. */
    constructor (d: seq<Block>)
      requires |d| < 0x1_0000_0000
      ensures Valid() && now == 0 && OnlyWritten(cache.slots[..], lastUse) && fresh(cache) && fresh(cache.slots)
    {
      cache := new Cache(d);
      lastUse := seq(64, _ => 0);
      now := 0;
    }

    method Read(sector: Word, ghost t: int) returns (buffer: Block, ghost slot: nat)
      requires Valid() && sector < |cache.disk| && now <= t
      modifies this`lastUse, this`now, cache`disk, cache.slots
      ensures Valid() && now == t && slot < 64 && lastUse == old(lastUse)[slot := t]
      ensures Follows(old(State()), Req(true, sector, t, slot), State())
      ensures buffer == old(cache.Contents())[sector] && cache.Contents() == old(cache.Contents())
    {
      hide View, Coherent, IsVictim;
      buffer, slot := cache.Read(sector);
      lastUse, now := lastUse[slot := t], t;
    }

    method Write(sector: Word, buffer: Block, t: int) returns (ghost slot: nat)
      requires Valid() && sector < |cache.disk| && now <= t
      modifies this`lastUse, this`now, cache`disk, cache.slots
      ensures Valid() && now == t && slot < 64 && lastUse == old(lastUse)[slot := t]
      ensures Follows(old(State()), Req(false, sector, t, slot), State())
      ensures cache.Contents() == old(cache.Contents())[sector := buffer]
    {
      hide View, Coherent, IsVictim;
      slot := cache.Write(sector, buffer, t);
      lastUse, now := lastUse[slot := t], t;
    }
  }
}
