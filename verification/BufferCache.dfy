/** The 64-slot write-back cache in front of the file system disk, and the flat
    disk that every sequence of cache calls is indistinguishable from. */
module BufferCache {
  import opened Blocks

  datatype Slot = Slot(dirty: bool, used: bool, secNum: Word, buffer: Block, accessTime: int)

  /** The slot that holds sector S, or -1. */
  function Find(slots: seq<Slot>, s: Word, i: nat): (r: int)
    requires i <= |slots|
    ensures r == -1 || (i <= r < |slots| && slots[r].used && slots[r].secNum == s)
    ensures r == -1 ==> forall k :: i <= k < |slots| && slots[k].used ==> slots[k].secNum != s
    decreases |slots| - i
  {
    if i == |slots| then -1
    else if slots[i].secNum == s && slots[i].used then i
    else Find(slots, s, i + 1)
  }

  /** No sector twice, dirty implies used, clean slots agree with the disk. */
  ghost predicate Coherent(slots: seq<Slot>, disk: seq<Block>) {
    && |disk| < 0x1_0000_0000
    && (forall i :: 0 <= i < |slots| && slots[i].dirty ==> slots[i].used)
    && (forall i :: 0 <= i < |slots| && slots[i].used ==> slots[i].secNum < |disk|)
    && (forall i, j :: 0 <= i < j < |slots| && slots[i].used && slots[j].used ==> slots[i].secNum != slots[j].secNum)
    && (forall i :: 0 <= i < |slots| && slots[i].used && !slots[i].dirty ==> slots[i].buffer == disk[slots[i].secNum])
  }

  /** Sector S as a reader gets it. */
  function Lookup(slots: seq<Slot>, disk: seq<Block>, s: Word): Block
    requires s < |disk|
  {
    var i := Find(slots, s, 0);
    if i == -1 then disk[s] else slots[i].buffer
  }

  /** The whole disk as readers get it. */
  function View(slots: seq<Slot>, disk: seq<Block>): seq<Block>
    requires |disk| < 0x1_0000_0000
  {
    seq(|disk|, s requires 0 <= s < |disk| => Lookup(slots, disk, s))
  }

  /** In a coherent cache a used slot is the answer for its sector. */
  lemma LookupHit(slots: seq<Slot>, disk: seq<Block>, i: nat)
    requires Coherent(slots, disk) && i < |slots| && slots[i].used
    ensures Find(slots, slots[i].secNum, 0) == i
    ensures Lookup(slots, disk, slots[i].secNum) == slots[i].buffer
  {
  }

  /** Storing B in the slot of its sector changes that sector and no other. */
  lemma StoreHit(slots: seq<Slot>, disk: seq<Block>, i: nat, b: Block, now: int)
    requires Coherent(slots, disk) && i < |slots| && slots[i].used
    ensures var slots' := slots[i := slots[i].(dirty := true, accessTime := now, buffer := b)];
            Coherent(slots', disk) && View(slots', disk) == View(slots, disk)[slots[i].secNum := b]
  {
    var slots' := slots[i := slots[i].(dirty := true, accessTime := now, buffer := b)];
    forall s: Word | s < |disk|
      ensures Lookup(slots', disk, s) == if s == slots[i].secNum then b else Lookup(slots, disk, s)
    {
      var k := Find(slots', s, 0);
      if k != -1 { LookupHit(slots, disk, k); }
      var j := Find(slots, s, 0);
      if j != -1 { LookupHit(slots', disk, j); }
      if s == slots[i].secNum { LookupHit(slots', disk, i); }
    }
  }

  /** Refilling a slot that is unused or clean with another, uncached sector
      changes nothing a reader sees. */
  lemma Refill(slots: seq<Slot>, disk: seq<Block>, i: nat, s: Word)
    requires Coherent(slots, disk) && i < |slots| && !slots[i].dirty
    requires s < |disk| && Find(slots, s, 0) == -1
    ensures var slots' := slots[i := slots[i].(used := true, dirty := false, secNum := s, buffer := disk[s])];
            Coherent(slots', disk) && View(slots', disk) == View(slots, disk)
  {
    var slots' := slots[i := slots[i].(used := true, dirty := false, secNum := s, buffer := disk[s])];
    forall t: Word | t < |disk| ensures Lookup(slots', disk, t) == Lookup(slots, disk, t) {
      var k := Find(slots', t, 0);
      if k != -1 && k != i { LookupHit(slots, disk, k); }
      var j := Find(slots, t, 0);
      if j != -1 && j != i { LookupHit(slots', disk, j); }
    }
  }

  /** Writing a dirty slot back changes nothing a reader sees. */
  lemma WriteBack(slots: seq<Slot>, disk: seq<Block>, i: nat)
    requires Coherent(slots, disk) && i < |slots| && slots[i].dirty
    ensures var slots' := slots[i := slots[i].(dirty := false)];
            var disk' := disk[slots[i].secNum := slots[i].buffer];
            Coherent(slots', disk') && View(slots', disk') == View(slots, disk)
  {
    var slots' := slots[i := slots[i].(dirty := false)];
    var disk' := disk[slots[i].secNum := slots[i].buffer];
    forall t: Word | t < |disk| ensures Lookup(slots', disk', t) == Lookup(slots, disk, t) {
      var k := Find(slots', t, 0);
      if k != -1 { LookupHit(slots, disk, k); }
      var j := Find(slots, t, 0);
      if j != -1 { LookupHit(slots', disk', j); }
    }
  }

  /** Without dirty slots the disk itself is what readers see. */
  lemma CleanView(slots: seq<Slot>, disk: seq<Block>)
    requires Coherent(slots, disk) && forall i :: 0 <= i < |slots| ==> !slots[i].dirty
    ensures View(slots, disk) == disk
  {
  }

  /** I is the slot eviction chooses: the first unused one, or, when all are in
      use, the first of those with the oldest access time. */
  ghost predicate IsVictim(slots: seq<Slot>, i: nat) {
    && i < |slots|
    && if exists k :: 0 <= k < |slots| && !slots[k].used
       then !slots[i].used && forall k :: 0 <= k < i ==> slots[k].used
       else
         && (forall k :: 0 <= k < |slots| ==> slots[i].accessTime <= slots[k].accessTime)
         && (forall k :: 0 <= k < i ==> slots[i].accessTime < slots[k].accessTime)
  }

  /** A request for sector S is served by slot I: the one that holds it, or else the victim. */
  ghost predicate Serves(slots: seq<Slot>, s: Word, i: nat) {
    if Find(slots, s, 0) == -1 then IsVictim(slots, i) else i == Find(slots, s, 0)
  }

  /** A request for sector S served by slot I leaves the other slots alone. */
  ghost predicate Served(slots: seq<Slot>, slots': seq<Slot>, s: Word, i: nat) {
    && Serves(slots, s, i) && |slots'| == |slots| && i < |slots|
    && slots'[i].used && slots'[i].secNum == s
    && (forall k :: 0 <= k < |slots| && k != i ==> slots'[k] == slots[k])
  }

  /** A read leaves the access times alone. */
  ghost predicate ServedRead(slots: seq<Slot>, slots': seq<Slot>, s: Word, i: nat) {
    && Served(slots, slots', s, i) && slots'[i].accessTime == slots[i].accessTime
    && (Find(slots, s, 0) != -1 ==> slots' == slots)
  }

  /** A write sets the slot's. */
  ghost predicate ServedWrite(slots: seq<Slot>, slots': seq<Slot>, s: Word, now: int, i: nat) {
    Served(slots, slots', s, i) && slots'[i].accessTime == now && slots'[i].dirty
  }

  class Cache {
    const slots: array<Slot>
    var disk: seq<Block>

    ghost predicate Valid()
      reads this, slots
    {
      slots.Length == 64 && Coherent(slots[..], disk)
    }

    /** The flat disk this cache stands for. */
    ghost function Contents(): (r: seq<Block>)
      requires Valid()
      reads this, slots
      ensures |r| == |disk|
    {
      View(slots[..], disk)
    }

    /** buffer_cache_init in front of a disk with contents D. */
    constructor (d: seq<Block>)
      requires |d| < 0x1_0000_0000
      ensures Valid() && Contents() == d && disk == d && fresh(slots)
      ensures forall k :: 0 <= k < 64 ==> !slots[k].used && slots[k].accessTime == 0
    {
      slots := new Slot[64](_ => Slot(false, false, 0, Zeros(), 0));
      disk := d;
      new;
      CleanView(slots[..], disk);
    }

    method FindSlot(sector: Word) returns (i: int)
      requires slots.Length == 64
      ensures i == Find(slots[..], sector, 0)
    {
      i := 0;
      while i < 64
        invariant 0 <= i <= 64
        invariant Find(slots[..], sector, 0) == Find(slots[..], sector, i)
      {
        if slots[i].secNum == sector && slots[i].used {
          return i;
        }
        i := i + 1;
      }
      i := -1;
    }

    method Flush(index: int)
      requires Valid() && 0 <= index <= 63 && slots[index].used
      modifies this`disk, slots
      ensures Valid() && Contents() == old(Contents())
      ensures slots[..] == old(slots[..])[index := old(slots[index]).(dirty := false)]
      ensures disk == if old(slots[index]).dirty then old(disk)[slots[index].secNum := slots[index].buffer] else old(disk)
    {
      if slots[index].dirty {
        WriteBack(slots[..], disk, index);
        disk := disk[slots[index].secNum := slots[index].buffer];
        slots[index] := slots[index].(dirty := false);
        assert slots[..] == old(slots[..])[index := old(slots[index]).(dirty := false)];
      }
    }

    method LruEviction() returns (lru: int)
      requires Valid()
      modifies this`disk, slots
      ensures Valid() && Contents() == old(Contents()) && |disk| == |old(disk)|
      ensures 0 <= lru < 64 && !slots[lru].dirty && IsVictim(old(slots[..]), lru)
      ensures slots[..] == old(slots[..])[lru := old(slots[lru]).(dirty := false)]
    {
      var i := 0;
      lru := 0;
      while i < 64
        invariant 0 <= i <= 64
        invariant forall k :: 0 <= k < i ==> slots[k].used
      {
        if !slots[i].used {
          return i;
        }
        i := i + 1;
      }
      i := 0;
      while i < 64
        invariant 0 <= i <= 64 && 0 <= lru < 64
        invariant forall k :: 0 <= k < i ==> slots[lru].accessTime <= slots[k].accessTime
        invariant forall k :: 0 <= k < lru ==> slots[lru].accessTime < slots[k].accessTime
      {
        if slots[lru].accessTime > slots[i].accessTime {
          lru := i;
        }
        i := i + 1;
      }
      if slots[lru].dirty {
        Flush(lru);
      }
    }

    method FlushAll()
      requires Valid()
      modifies this`disk, slots
      ensures Valid() && Contents() == old(Contents())
      ensures disk == old(Contents())
      ensures forall k :: 0 <= k < 64 ==> slots[k] == old(slots[k]).(dirty := false)
    {
      var i := 0;
      while i < 64
        invariant 0 <= i <= 64 && Valid() && Contents() == old(Contents())
        invariant forall k :: 0 <= k < i ==> slots[k] == old(slots[k]).(dirty := false)
        invariant forall k :: i <= k < 64 ==> slots[k] == old(slots[k])
      {
        if slots[i].dirty {
          Flush(i);
        }
        i := i + 1;
      }
      CleanView(slots[..], disk);
    }

    /** The common miss path of reads and writes: make room, then fetch. */
    method Fetch(sector: Word) returns (idx: int)
      requires Valid() && sector < |disk|
      modifies this`disk, slots
      ensures Valid() && Contents() == old(Contents()) && |disk| == |old(disk)|
      ensures 0 <= idx < 64 && slots[idx].used && slots[idx].secNum == sector
      ensures forall k :: 0 <= k < 64 ==> slots[k].accessTime == old(slots[k]).accessTime
      ensures forall k :: 0 <= k < 64 && k != idx ==> slots[k] == old(slots[k])
      ensures if Find(old(slots[..]), sector, 0) == -1 then IsVictim(old(slots[..]), idx)
              else slots[..] == old(slots[..]) && disk == old(disk)
    {
      idx := FindSlot(sector);
      if idx == -1 {
        idx := LruEviction();
        assert Find(slots[..], sector, 0) == -1;
        Refill(slots[..], disk, idx, sector);
        ghost var before := slots[..];
        slots[idx] := slots[idx].(used := true, dirty := false, secNum := sector, buffer := disk[sector]);
        assert slots[..] == before[idx := slots[idx]];
      }
    }

    method Write(sector: Word, buffer: Block, now: int) returns (ghost slot: nat)
      requires Valid() && sector < |disk|
      modifies this`disk, slots
      ensures Valid() && |disk| == |old(disk)|
      ensures Contents() == old(Contents())[sector := buffer]
      ensures ServedWrite(old(slots[..]), slots[..], sector, now, slot)
    {
      var idx := Fetch(sector);
      slot := idx;
      StoreHit(slots[..], disk, idx, buffer, now);
      ghost var before := slots[..];
      slots[idx] := slots[idx].(dirty := true, accessTime := now, buffer := buffer);
      assert slots[..] == before[idx := slots[idx]];
    }

    method Read(sector: Word) returns (buffer: Block, ghost slot: nat)
      requires Valid() && sector < |disk|
      modifies this`disk, slots
      ensures Valid() && |disk| == |old(disk)|
      ensures buffer == old(Contents())[sector]
      ensures Contents() == old(Contents())
      ensures ServedRead(old(slots[..]), slots[..], sector, slot)
    {
      var idx := Fetch(sector);
      slot := idx;
      LookupHit(slots[..], disk, idx);
      buffer := slots[idx].buffer;
    }
  }

  /** A call to the cache, as its users make them. */
  datatype Request = ReadReq(sector: Word) | WriteReq(sector: Word, buffer: Block, now: int) | FlushReq

  /** What a flat disk answers to the reads among the requests. */
  function Replies(disk: seq<Block>, reqs: seq<Request>): seq<Block>
    decreases |reqs|
  {
    if reqs == [] then []
    else
      match reqs[0]
      case ReadReq(s) => [Get(disk, s)] + Replies(disk, reqs[1..])
      case WriteReq(s, b, _) => Replies(Put(disk, s, b), reqs[1..])
      case FlushReq => Replies(disk, reqs[1..])
  }

  /** What a flat disk holds after the requests. */
  function After(disk: seq<Block>, reqs: seq<Request>): seq<Block>
    decreases |reqs|
  {
    if reqs == [] then disk
    else if reqs[0].WriteReq? then After(Put(disk, reqs[0].sector, reqs[0].buffer), reqs[1..])
    else After(disk, reqs[1..])
  }

  /** Serving any sequence of requests through the cache gives the answers of a
      flat disk, and a final flush leaves that disk on the device. */
  method Serve(c: Cache, reqs: seq<Request>) returns (out: seq<Block>)
    requires c.Valid()
    requires forall i :: 0 <= i < |reqs| && !reqs[i].FlushReq? ==> reqs[i].sector < |c.disk|
    modifies c`disk, c.slots
    ensures c.Valid()
    ensures out == Replies(old(c.Contents()), reqs)
    ensures c.disk == c.Contents() == After(old(c.Contents()), reqs)
  {
    out := [];
    var i := 0;
    ghost var d0 := c.Contents();
    while i < |reqs|
      invariant 0 <= i <= |reqs| && c.Valid() && |c.disk| == |d0|
      invariant out + Replies(c.Contents(), reqs[i..]) == Replies(d0, reqs)
      invariant After(c.Contents(), reqs[i..]) == After(d0, reqs)
    {
      assert reqs[i..][0] == reqs[i] && reqs[i..][1..] == reqs[i + 1..];
      match reqs[i] {
        case ReadReq(s) =>
          var b, _ := c.Read(s);
          out := out + [b];
        case WriteReq(s, b, now) =>
          var _ := c.Write(s, b, now);
        case FlushReq =>
          c.FlushAll();
      }
      i := i + 1;
    }
    assert reqs[i..] == [];
    c.FlushAll();
  }
}
