/** inode_disk_allocate and inode_disk_free as functions on volumes, and what
    they do to the free map, to the file and to everything else. */
module Allocation {
  import opened Basics
  import opened Blocks
  import opened FileData
  import opened Inodes
  import opened Volumes

  /** One sector from the free map, filled with zeros. */
  function TakeCleared(v: Volume): (r: Option<(Word, Volume)>)
    requires Sane(v)
    ensures r.Some? ==> Sane(r.value.1)
  {
    match TakeSector(v)
    case None => None
    case Some((s, v1)) => Some((s, v1.(disk := Put(v1.disk, s, Zeros()))))
  }

  datatype Taken = Taken(vol: Volume, got: seq<Word>)

  /** Takes up to C sectors one after the other and clears each. */
  function TakeZeroed(v: Volume, c: nat): (r: Taken)
    requires Sane(v)
    ensures Sane(r.vol)
    decreases c
  {
    if c == 0 then Taken(v, [])
    else match TakeCleared(v)
      case None => Taken(v, [])
      case Some((s, v1)) =>
        var r := TakeZeroed(v1, c - 1);
        Taken(r.vol, [s] + r.got)
  }

  datatype TableAlloc = TableAlloc(ok: bool, vol: Volume, table: seq<Word>)

  /** The allocation loop over table entries I up to N: a zero entry gets a
      cleared sector; the loop stops at the first failure. */
  function AllocTable(v: Volume, table: seq<Word>, i: nat, n: nat): (r: TableAlloc)
    requires Sane(v) && n <= |table|
    ensures Sane(r.vol) && |r.table| == |table|
    decreases n - i
  {
    if i >= n then TableAlloc(true, v, table)
    else if table[i] != 0 then AllocTable(v, table, i + 1, n)
    else match TakeCleared(v)
      case None => TableAlloc(false, v, table)
      case Some((s, v1)) => AllocTable(v1, table[i := s], i + 1, n)
  }

  /** GOT laid into the table from entry K on. */
  function Fill(table: seq<Word>, k: nat, got: seq<Word>): (r: seq<Word>)
    requires k + |got| <= |table|
    ensures |r| == |table|
  {
    table[..k] + got + table[k + |got|..]
  }

  lemma FillNext(table: seq<Word>, k: nat, s: Word, got: seq<Word>)
    requires k + 1 + |got| <= |table|
    ensures Fill(table[k := s], k + 1, got) == Fill(table, k, [s] + got)
  {
    assert table[k := s][..k + 1] == table[..k] + [s];
  }

  lemma FillNone(table: seq<Word>, k: nat)
    requires k <= |table|
    ensures Fill(table, k, []) == table
  {
  }

  /** From V to V' the sectors GOT were taken from the free map; no sector but
      those, those in TOUCHED and the map file's changed. */
  ghost predicate Effect(v: Volume, v': Volume, got: seq<Word>, touched: seq<Word>) {
    && MapOk(v) && MapOk(v') && MapOwned(v') == MapOwned(v)
    && v' == v.(disk := v'.disk, used := v'.used)
    && |v'.disk| == |v.disk| && |v'.used| == |v.used|
    && (Synced(v) ==> Synced(v'))
    && NoDup(got)
    && (forall x :: x in got ==> 0 < x < |v.used| && !v.used[x] && x !in MapOwned(v))
    && (forall x :: 0 <= x < |v.used| ==> (v'.used[x] <==> v.used[x] || x in got))
    && (forall x :: x !in got && x !in touched && x !in MapOwned(v) ==> Get(v'.disk, x) == Get(v.disk, x))
  }

  lemma MapOkSane(v: Volume)
    requires MapOk(v)
    ensures Sane(v)
  {
  }

  lemma TakeClearedEffect(v: Volume)
    requires MapOk(v) && TakeCleared(v).Some?
    ensures var (s, v') := TakeCleared(v).value;
            Effect(v, v', [s], []) && Get(v'.disk, s) == Zeros() && MapOk(v') && s != 0
  {
    hide MapOk, MapOwned, Synced, TakeSector;
    TakeSectorEffect(v);
    var (s, v1) := TakeSector(v).value;
    PutOutsideMap(v1, s, Zeros());
    assert s in [s];
  }

  lemma EffectTransitive(v: Volume, v1: Volume, got1: seq<Word>, v2: Volume, got2: seq<Word>, touched: seq<Word>)
    requires Effect(v, v1, got1, touched) && Effect(v1, v2, got2, touched)
    ensures Effect(v, v2, got1 + got2, touched)
  {
    hide MapOk, MapOwned, Synced, NoDup;
    NoDupConcat(got1, got2);
  }

  lemma {:induction false} TakeZeroedEffect(v: Volume, c: nat)
    requires MapOk(v)
    ensures var r := TakeZeroed(v, c);
            && Effect(v, r.vol, r.got, [])
            && |r.got| <= c
            && (forall x :: x in r.got ==> Get(r.vol.disk, x) == Zeros())
            && (|r.got| < c ==> forall x :: 0 <= x < |v.used| ==> r.vol.used[x])
    decreases c
  {
    hide MapOk, MapOwned, Synced;
    MapOkSane(v);
    if c > 0 && TakeCleared(v).Some? {
      TakeClearedEffect(v);
      var (s, v1) := TakeCleared(v).value;
      TakeZeroedEffect(v1, c - 1);
      var r := TakeZeroed(v1, c - 1);
      EffectTransitive(v, v1, [s], r.vol, r.got, []);
    }
  }

  /** On a table filled from the front the loop takes exactly the missing sectors. */
  lemma {:induction false} AllocTableTakes(v: Volume, table: seq<Word>, i: nat, k: nat, n: nat)
    requires MapOk(v) && NonzeroUpTo(table, k)
    requires i <= k <= n <= |table|
    ensures var t := TakeZeroed(v, n - k);
            |t.got| <= n - k
            && AllocTable(v, table, i, n) == TableAlloc(|t.got| == n - k, t.vol, Fill(table, k, t.got))
    decreases n - i
  {
    hide MapOk, Effect, Sane, TakeCleared, Fill;
    MapOkSane(v);
    if i < k {
      AllocTableTakes(v, table, i + 1, k, n);
    } else if k < n && TakeCleared(v).Some? {
      TakeClearedEffect(v);
      var (s, v1) := TakeCleared(v).value;
      AllocTableTakes(v1, table[i := s], i + 1, k + 1, n);
      var f := TakeZeroed(v1, n - k - 1).got;
      FillNext(table, k, s, f);
    } else {
      FillNone(table, k);
    }
  }

  datatype InodeAlloc = InodeAlloc(ok: bool, vol: Volume, inode: InodeDisk)

  /** inode_indirect_alloc at level 0, once the index sector is D.indirect and
      its entries are TABLE. */
  function FillIndirect(v: Volume, d: InodeDisk, table: Table, n: nat): (r: InodeAlloc)
    requires Sane(v) && n <= 128
    ensures Sane(r.vol)
  {
    var t := AllocTable(v, table, 0, n);
    if t.ok then InodeAlloc(true, t.vol.(disk := Put(t.vol.disk, d.indirect, Encode(t.table))), d)
    else InodeAlloc(false, t.vol, d)
  }

  /** inode_indirect_alloc at level 0.  A failure after the index sector was
      taken keeps its number in the inode without writing the sector. */
  function AllocIndirect(v: Volume, d: InodeDisk, n: nat): (r: InodeAlloc)
    requires Sane(v) && n <= 128
    ensures Sane(r.vol)
  {
    if d.indirect != 0 then FillIndirect(v, d, Decode(Get(v.disk, d.indirect)), n)
    else match TakeSector(v)
      case None => InodeAlloc(false, v, d)
      case Some((s, v1)) => FillIndirect(v1, d.(indirect := s), NoSectors(), n)
  }

  /** inode_disk_allocate for up to 123 + 128 sectors. */
  function AllocInode(v: Volume, d: InodeDisk, m: nat): (r: InodeAlloc)
    requires Sane(v) && m <= 251
    ensures Sane(r.vol)
  {
    var t := AllocTable(v, d.direct, 0, if m > 123 then 123 else m);
    var d1 := d.(direct := t.table);
    if !t.ok then InodeAlloc(false, t.vol, d1)
    else if m <= 123 then InodeAlloc(true, t.vol, d1)
    else AllocIndirect(t.vol, d1, m - 123)
  }

  /** The grown file D' has the sectors of D followed by GOT, all zero. */
  lemma GrowContents(disk: seq<Block>, d: InodeDisk, disk': seq<Block>, d': InodeDisk, got: seq<Word>)
    requires Small(d) && Small(d') && d.length <= d'.length
    requires FileSectors(d', disk') == FileSectors(d, disk) + got
    requires forall x :: x in FileSectors(d, disk) ==> Get(disk', x) == Get(disk, x)
    requires forall x :: x in got ==> Get(disk', x) == Zeros()
    requires SlackZero(d, disk)
    ensures Contents(d', disk') == ZeroExtend(Contents(d, disk), d'.length)
    ensures SlackZero(d', disk')
  {
    var fs, fs' := FileSectors(d, disk), FileSectors(d', disk');
    forall p | 0 <= p < 512 * Sectors(d'.length)
      ensures ByteAt(disk', fs', p) == if p < d.length then ByteAt(disk, fs, p) else 0
    {
      var k := p / 512;
      if k < |fs| {
        assert fs'[k] == fs[k] && fs[k] in fs;
        assert ByteAt(disk', fs', p) == ByteAt(disk, fs, p);
      } else {
        assert fs'[k] == got[k - |fs|] && got[k - |fs|] in got;
      }
    }
  }

  lemma EffectPut(v: Volume, v': Volume, got: seq<Word>, touched: seq<Word>, s: Word, b: Block)
    requires Effect(v, v', got, touched) && (s in got || s in touched) && s !in MapOwned(v)
    ensures Effect(v, v'.(disk := Put(v'.disk, s, b)), got, touched)
  {
    hide MapOk, MapOwned, Synced, NoDup;
    PutOutsideMap(v', s, b);
  }

  lemma EffectWeaken(v: Volume, v': Volume, got: seq<Word>, touched: seq<Word>)
    requires Effect(v, v', got, [])
    ensures Effect(v, v', got, touched)
  {
  }

  /** A file that gained the sectors GOT at the end, all data sectors among them zero. */
  lemma GrownOk(v: Volume, d: InodeDisk, v': Volume, d': InodeDisk, got: seq<Word>, touched: seq<Word>, data: seq<Word>)
    requires FileOk(v.disk, v.used, d) && Effect(v, v', got, touched) && Disjoint(Owned(d, v.disk), MapOwned(v))
    requires Small(d') && d.length <= d'.length && Shape(d', v'.disk)
    requires Owned(d', v'.disk) == Owned(d, v.disk) + got
    requires FileSectors(d', v'.disk) == FileSectors(d, v.disk) + data
    requires Disjoint(FileSectors(d, v.disk), touched)
    requires forall x :: x in data ==> Get(v'.disk, x) == Zeros()
    ensures FileOk(v'.disk, v'.used, d')
    ensures Contents(d', v'.disk) == ZeroExtend(Contents(d, v.disk), d'.length)
  {
    var o := Owned(d, v.disk);
    OwnedParts(d, v.disk);
    assert forall x :: x in o ==> x < |v.used| && v.used[x];
    assert Disjoint(o, got);
    NoDupConcat(o, got);
    forall x | x in FileSectors(d, v.disk) ensures Get(v'.disk, x) == Get(v.disk, x) {
      assert x in o;
    }
    GrowContents(v.disk, d, v'.disk, d', data);
  }

  lemma FillNonzero(table: seq<Word>, k: nat, got: seq<Word>)
    requires NonzeroUpTo(table, k) && k + |got| <= |table|
    requires forall x :: x in got ==> x != 0
    ensures NonzeroUpTo(Fill(table, k, got), k + |got|)
  {
    var t := Fill(table, k, got);
    forall j | 0 <= j < |t| ensures t[j] != 0 <==> j < k + |got| {
      if k <= j < k + |got| { assert t[j] == got[j - k] && got[j - k] in got; }
    }
  }

  /** D with the sectors DATA1 added to its direct table and DATA2 to the index
      sector of DISK' has the sectors it had, then those. */
  lemma GrownSectors(disk: seq<Block>, d: InodeDisk, disk': seq<Block>, d': InodeDisk, data1: seq<Word>, data2: seq<Word>)
    requires Small(d) && Small(d')
    requires var n := Sectors(d.length);
             var k := if n <= 123 then n else 123;
             && k + |data1| <= 123 && d'.direct == Fill(d.direct, k, data1)
             && Sectors(d'.length) == n + |data1| + |data2|
             && (data2 != [] || n > 123 ==>
                   && k + |data1| == 123
                   && n - k + |data2| <= 128
                   && Decode(Get(disk', d'.indirect))
                      == Fill(if n > 123 then Decode(Get(disk, d.indirect)) else NoSectors(), n - k, data2))
    ensures FileSectors(d', disk') == FileSectors(d, disk) + data1 + data2
  {
    hide Decode, Get, Encode, NoSectors;
    var fs, fs' := FileSectors(d, disk), FileSectors(d', disk');
    forall i | 0 <= i < |fs'| ensures fs'[i] == (fs + data1 + data2)[i] {
    }
  }

  ghost predicate Grown(v: Volume, d: InodeDisk, v': Volume, d': InodeDisk, got: seq<Word>)
    requires FileOk(v.disk, v.used, d)
  {
    && Effect(v, v', got, Owned(d, v.disk))
    && FileOk(v'.disk, v'.used, d')
    && Owned(d', v'.disk) == Owned(d, v.disk) + got
    && Contents(d', v'.disk) == ZeroExtend(Contents(d, v.disk), d'.length)
  }

  lemma GrowDirect(v: Volume, d: InodeDisk, m: nat, length: Length) returns (got: seq<Word>)
    requires MapOk(v) && FileOk(v.disk, v.used, d) && Disjoint(Owned(d, v.disk), MapOwned(v))
    requires Sectors(d.length) <= m == Sectors(length) <= 123 && d.length <= length
    requires AllocInode(v, d, m).ok
    ensures var r := AllocInode(v, d, m); Grown(v, d, r.vol, r.inode.(length := length), got)
  {
    var r := AllocInode(v, d, m);
    var n := Sectors(d.length);
    got := TakeZeroed(v, m - n).got;
    TakeZeroedEffect(v, m - n);
    AllocTableTakes(v, d.direct, 0, n, m);
    var d' := r.inode.(length := length);
    FillNonzero(d.direct, n, got);
    GrownSectors(v.disk, d, r.vol.disk, d', got, []);
    EffectWeaken(v, r.vol, got, Owned(d, v.disk));
    GrownOk(v, d, r.vol, d', got, [], got);
  }

  /** The index sector S of a file now holds TABLE with DATA laid in. */
  lemma FillIndirectOk(v: Volume, d: InodeDisk, table: Table, k: nat, n: nat) returns (got: seq<Word>)
    requires MapOk(v) && NonzeroUpTo(table, k) && k <= n <= 128
    requires 0 < d.indirect < |v.used| && v.used[d.indirect] && d.indirect !in MapOwned(v)
    requires FillIndirect(v, d, table, n).ok
    ensures var r := FillIndirect(v, d, table, n);
            && |got| == n - k
            && r.inode == d
            && Effect(v, r.vol, got, [d.indirect])
            && (forall x :: x in got ==> Get(r.vol.disk, x) == Zeros())
            && Decode(Get(r.vol.disk, d.indirect)) == Fill(table, k, got)
            && NonzeroUpTo(Fill(table, k, got), n)
  {
    hide Decode, Encode, MapOk, MapOwned, Synced, NoDup, Zeros;
    MapOkSane(v);
    var t := TakeZeroed(v, n - k);
    got := t.got;
    TakeZeroedEffect(v, n - k);
    AllocTableTakes(v, table, 0, k, n);
    FillNonzero(table, k, got);
    EffectWeaken(v, t.vol, got, [d.indirect]);
    EffectPut(v, t.vol, got, [d.indirect], d.indirect, Encode(Fill(table, k, got)));
    DecodeEncode(Fill(table, k, got));
  }

  lemma AllocFullDirect(v: Volume, d: InodeDisk, m: nat)
    requires MapOk(v) && NonzeroUpTo(d.direct, 123) && d.indirect != 0 && 123 < m <= 251
    ensures AllocInode(v, d, m) == FillIndirect(v, d, Decode(Get(v.disk, d.indirect)), m - 123)
  {
    hide Decode, Get, FillIndirect;
    AllocTableTakes(v, d.direct, 0, 123, 123);
    FillNone(d.direct, 123);
  }

  lemma GrowIndirect(v: Volume, d: InodeDisk, m: nat, length: Length) returns (got: seq<Word>)
    requires MapOk(v) && FileOk(v.disk, v.used, d) && Disjoint(Owned(d, v.disk), MapOwned(v))
    requires 123 < Sectors(d.length) <= m == Sectors(length) <= 251 && d.length <= length
    requires AllocInode(v, d, m).ok
    ensures var r := AllocInode(v, d, m); Grown(v, d, r.vol, r.inode.(length := length), got)
  {
    hide AllocInode, FillIndirect, MapOwned, MapOk, FileSectors, Owned, Effect, Grown, SlackZero, Decode, NoDup;
    MapOkSane(v);
    var n := Sectors(d.length);
    var table := Decode(Get(v.disk, d.indirect));
    AllocFullDirect(v, d, m);
    OwnedParts(d, v.disk);
    got := FillIndirectOk(v, d, table, n - 123, m - 123);
    var r := AllocInode(v, d, m);
    var d' := d.(length := length);
    FillNone(d.direct, 123);
    GrownSectors(v.disk, d, r.vol.disk, d', [], got);
    GrownIndirectOk(v, d, r.vol, d', got);
  }

  lemma GrownIndirectOk(v: Volume, d: InodeDisk, v': Volume, d': InodeDisk, got: seq<Word>)
    requires FileOk(v.disk, v.used, d) && Effect(v, v', got, [d.indirect]) && Disjoint(Owned(d, v.disk), MapOwned(v))
    requires 123 < Sectors(d.length) && Small(d') && d.length <= d'.length && d' == d.(length := d'.length)
    requires Shape(d', v'.disk)
    requires FileSectors(d', v'.disk) == FileSectors(d, v.disk) + [] + got
    requires forall x :: x in got ==> Get(v'.disk, x) == Zeros()
    ensures Grown(v, d, v', d', got)
  {
    hide MapOk, MapOwned, Shape, FileSectors, SlackZero, Synced, NoDup, Zeros, Get, Owned;
    OwnedParts(d, v.disk);
    OwnedMore(v.disk, d, v'.disk, d', got);
    assert FileSectors(d, v.disk) + [] + got == FileSectors(d, v.disk) + got;
    GrownOk(v, d, v', d', got, [d.indirect], got);
  }

  /** New sectors behind the index sector come last. */
  lemma OwnedMore(disk: seq<Block>, d: InodeDisk, disk': seq<Block>, d': InodeDisk, got: seq<Word>)
    requires Small(d) && Small(d') && 123 < Sectors(d.length) && d'.indirect == d.indirect
    requires FileSectors(d', disk') == FileSectors(d, disk) + [] + got
    ensures Owned(d', disk') == Owned(d, disk) + got
  {
    hide FileSectors;
    var fs := FileSectors(d, disk);
    assert fs + [] + got == fs + got;
    assert (fs + got)[..123] == fs[..123] && (fs + got)[123..] == fs[123..] + got;
  }

  /** When the direct table fills up: the loop over it, then a new index sector. */
  lemma AllocNewIndirect(v: Volume, d: InodeDisk, n: nat, m: nat)
    requires MapOk(v) && NonzeroUpTo(d.direct, n) && d.indirect == 0 && n <= 123 < m <= 251
    requires AllocInode(v, d, m).ok
    ensures var t := TakeZeroed(v, 123 - n);
            && |t.got| == 123 - n
            && TakeSector(t.vol).Some?
            && AllocInode(v, d, m)
               == FillIndirect(TakeSector(t.vol).value.1,
                               d.(direct := Fill(d.direct, n, t.got), indirect := TakeSector(t.vol).value.0),
                               NoSectors(), m - 123)
  {
    hide FillIndirect, TakeSector;
    AllocTableTakes(v, d.direct, 0, n, 123);
  }

  lemma TakeSectorIsEffect(v: Volume)
    requires MapOk(v) && TakeSector(v).Some?
    ensures var (s, v') := TakeSector(v).value; Effect(v, v', [s], []) && v'.used[s]
  {
    hide MapOk, MapOwned, Synced, TakeSector;
    TakeSectorEffect(v);
    assert TakeSector(v).value.0 in [TakeSector(v).value.0];
  }

  lemma EffectTouchedTaken(v: Volume, v': Volume, got: seq<Word>, s: Word)
    requires Effect(v, v', got, [s]) && s in got
    ensures Effect(v, v', got, [])
  {
  }

  /** Taking GOT1, then S, then GOT2 with S rewritten takes them all. */
  lemma EffectThree(v: Volume, v1: Volume, v2: Volume, v3: Volume, got1: seq<Word>, s: Word, got2: seq<Word>)
    requires Effect(v, v1, got1, []) && Effect(v1, v2, [s], []) && Effect(v2, v3, got2, [s])
    requires forall x :: x in got1 ==> Get(v1.disk, x) == Zeros()
    requires forall x :: x in got2 ==> Get(v3.disk, x) == Zeros()
    ensures Effect(v, v3, got1 + [s] + got2, [])
    ensures forall x :: x in got1 + got2 ==> Get(v3.disk, x) == Zeros()
  {
    hide MapOk, MapOwned, Synced, NoDup, Zeros, Get;
    EffectTransitive(v, v1, got1, v2, [s], []);
    EffectWeaken(v, v2, got1 + [s], [s]);
    EffectTransitive(v, v2, got1 + [s], v3, got2, [s]);
    EffectTouchedTaken(v, v3, got1 + [s] + got2, s);
    forall x | x in got1 ensures Get(v3.disk, x) == Get(v1.disk, x) {
      assert v1.used[x] && x != s;
    }
  }

  lemma GrowIntoIndirect(v: Volume, d: InodeDisk, m: nat, length: Length) returns (got: seq<Word>)
    requires MapOk(v) && FileOk(v.disk, v.used, d) && Disjoint(Owned(d, v.disk), MapOwned(v))
    requires Sectors(d.length) <= 123 < m == Sectors(length) <= 251 && d.length <= length
    requires AllocInode(v, d, m).ok
    ensures var r := AllocInode(v, d, m); Grown(v, d, r.vol, r.inode.(length := length), got)
  {
    hide AllocInode, FillIndirect, MapOwned, MapOk, FileSectors, Owned, Grown, SlackZero, Decode, NoDup, TakeSector, Synced,
      TakeZeroed, Fill, NoSectors, Effect, Zeros, Get;
    MapOkSane(v);
    var n := Sectors(d.length);
    AllocNewIndirect(v, d, n, m);
    var t := TakeZeroed(v, 123 - n);
    TakeZeroedEffect(v, 123 - n);
    EffectMapOk(v, t.vol, t.got, []);
    TakeSectorIsEffect(t.vol);
    TakeSectorEffect(t.vol);
    var (s, v1) := TakeSector(t.vol).value;
    var d1 := d.(direct := Fill(d.direct, n, t.got), indirect := s);
    NoSectorsZero();
    var data := FillIndirectOk(v1, d1, NoSectors(), 0, m - 123);
    var r := AllocInode(v, d, m);
    got := t.got + [s] + data;
    EffectThree(v, t.vol, v1, r.vol, t.got, s, data);
    EffectNonzero(v, t.vol, t.got, []);
    FillNonzero(d.direct, n, t.got);
    GrownSectors(v.disk, d, r.vol.disk, d1.(length := length), t.got, data);
    GrownNewIndirectOk(v, d, r.vol, d1.(length := length), t.got, s, data);
  }

  lemma NoSectorsZero()
    ensures NonzeroUpTo(NoSectors(), 0)
  {
  }

  lemma EffectMapOk(v: Volume, v': Volume, got: seq<Word>, touched: seq<Word>)
    requires Effect(v, v', got, touched)
    ensures MapOk(v')
  {
  }

  lemma EffectNonzero(v: Volume, v': Volume, got: seq<Word>, touched: seq<Word>)
    requires Effect(v, v', got, touched)
    ensures forall x :: x in got ==> x != 0
  {
  }

  lemma GrownNewIndirectOk(v: Volume, d: InodeDisk, v': Volume, d': InodeDisk, got1: seq<Word>, s: Word, got2: seq<Word>)
    requires FileOk(v.disk, v.used, d) && Effect(v, v', got1 + [s] + got2, []) && Disjoint(Owned(d, v.disk), MapOwned(v))
    requires Small(d') && d.length <= d'.length && Shape(d', v'.disk)
    requires Sectors(d.length) + |got1| == 123 < Sectors(d'.length) && d'.indirect == s
    requires FileSectors(d', v'.disk) == FileSectors(d, v.disk) + got1 + got2
    requires forall x :: x in got1 + got2 ==> Get(v'.disk, x) == Zeros()
    ensures Grown(v, d, v', d', got1 + [s] + got2)
  {
    hide MapOk, MapOwned, Shape, FileSectors, SlackZero, Synced, NoDup, Zeros, Get;
    var fs := FileSectors(d, v.disk);
    assert fs + got1 + got2 == fs + (got1 + got2);
    assert (fs + got1 + got2)[..123] == fs + got1 && (fs + got1 + got2)[123..] == got2;
    assert Owned(d', v'.disk) == Owned(d, v.disk) + (got1 + [s] + got2);
    EffectWeaken(v, v', got1 + [s] + got2, Owned(d, v.disk));
    GrownOk(v, d, v', d', got1 + [s] + got2, [], got1 + got2);
  }

  /** inode_disk_allocate, when it succeeds, extends the file with zeros and
      takes exactly the sectors it adds; nothing else on the volume changes
      but the free map and its file. */
  lemma AllocInodeGrows(v: Volume, d: InodeDisk, length: Length) returns (got: seq<Word>)
    requires MapOk(v) && FileOk(v.disk, v.used, d) && Disjoint(Owned(d, v.disk), MapOwned(v))
    requires d.length <= length && Sectors(length) <= 251
    requires AllocInode(v, d, Sectors(length)).ok
    ensures var r := AllocInode(v, d, Sectors(length)); Grown(v, d, r.vol, r.inode.(length := length), got)
  {
    hide *;
    SectorsMonotonic(d.length, length);
    if Sectors(length) <= 123 {
      got := GrowDirect(v, d, Sectors(length), length);
    } else if Sectors(d.length) <= 123 {
      got := GrowIntoIndirect(v, d, Sectors(length), length);
    } else {
      got := GrowIndirect(v, d, Sectors(length), length);
    }
  }

  lemma SectorsMonotonic(a: nat, b: nat)
    requires a <= b
    ensures Sectors(a) <= Sectors(b)
  {
  }

  function CountFree(used: seq<bool>): nat {
    if used == [] then 0 else (if used[|used| - 1] then 0 else 1) + CountFree(used[..|used| - 1])
  }

  lemma {:induction false} CountFreeTaken(used: seq<bool>, s: nat)
    requires s < |used| && !used[s]
    ensures CountFree(used[s := true]) == CountFree(used) - 1
  {
    var l := |used| - 1;
    if s < l {
      assert used[s := true][..l] == used[..l][s := true];
      CountFreeTaken(used[..l], s);
    } else {
      assert used[s := true][..l] == used[..l];
    }
  }

  lemma {:induction false} CountFreeNone(used: seq<bool>)
    ensures CountFree(used) == 0 <==> forall i :: 0 <= i < |used| ==> used[i]
  {
    if used != [] {
      CountFreeNone(used[..|used| - 1]);
    }
  }

  /** A sector can be taken as long as one is free. */
  lemma TakeSectorCount(v: Volume)
    requires MapOk(v)
    ensures TakeSector(v).Some? <==> CountFree(v.used) > 0
    ensures TakeSector(v).Some? ==> CountFree(TakeSector(v).value.1.used) == CountFree(v.used) - 1
  {
    hide MapOk;
    MapOkSane(v);
    CountFreeNone(v.used);
    if TakeSector(v).Some? {
      CountFreeTaken(v.used, TakeSector(v).value.0);
    }
  }

  lemma {:induction false} TakeZeroedCount(v: Volume, c: nat)
    requires MapOk(v)
    ensures var r := TakeZeroed(v, c);
            && |r.got| == (if c <= CountFree(v.used) then c else CountFree(v.used))
            && CountFree(r.vol.used) == CountFree(v.used) - |r.got|
    decreases c
  {
    hide MapOk, TakeSector, Effect, Sane, Zeros, CountFree;
    MapOkSane(v);
    if c > 0 {
      TakeSectorCount(v);
      if TakeCleared(v).Some? {
        TakeClearedEffect(v);
        TakeZeroedCount(TakeCleared(v).value.1, c - 1);
      }
    }
  }

  /** How many sectors a file of N sectors needs to grow to M. */
  function Needed(n: nat, m: nat): int {
    m - n + if n <= 123 < m then 1 else 0
  }

  lemma FillIndirectCount(v: Volume, d: InodeDisk, table: Table, k: nat, n: nat)
    requires MapOk(v) && NonzeroUpTo(table, k) && k <= n <= 128
    ensures FillIndirect(v, d, table, n).ok <==> n - k <= CountFree(v.used)
  {
    hide MapOk, Encode;
    MapOkSane(v);
    AllocTableTakes(v, table, 0, k, n);
    TakeZeroedCount(v, n - k);
  }

  lemma AllocNewIndirectSucceeds(v: Volume, d: InodeDisk, n: nat, m: nat)
    requires MapOk(v) && NonzeroUpTo(d.direct, n) && d.indirect == 0 && n <= 123 < m <= 251
    ensures AllocInode(v, d, m).ok <==> Needed(n, m) <= CountFree(v.used)
  {
    hide MapOk, FillIndirect, TakeZeroed, TakeSector, Effect, NoSectors, Fill;
    MapOkSane(v);
    AllocTableTakes(v, d.direct, 0, n, 123);
    TakeZeroedCount(v, 123 - n);
    TakeZeroedEffect(v, 123 - n);
    var t := TakeZeroed(v, 123 - n);
    EffectMapOk(v, t.vol, t.got, []);
    TakeSectorCount(t.vol);
    if TakeSector(t.vol).Some? {
      TakeSectorEffect(t.vol);
      NoSectorsZero();
      var (s, v2) := TakeSector(t.vol).value;
      var d1 := d.(direct := AllocTable(v, d.direct, 0, 123).table, indirect := s);
      FillIndirectCount(v2, d1, NoSectors(), 0, m - 123);
    }
  }

  /** inode_disk_allocate succeeds exactly when enough sectors are free. */
  lemma AllocInodeSucceeds(v: Volume, d: InodeDisk, m: nat)
    requires MapOk(v) && FileOk(v.disk, v.used, d) && Sectors(d.length) <= m <= 251
    ensures AllocInode(v, d, m).ok <==> Needed(Sectors(d.length), m) <= CountFree(v.used)
  {
    hide MapOk, FillIndirect, TakeZeroed, TakeSector, Decode, SlackZero, NoDup, Owned, Marked, Get, NonzeroUpTo;
    MapOkSane(v);
    var n := Sectors(d.length);
    if n > 123 {
      AllDirect(d.direct, n);
      AllocFullDirect(v, d, m);
      FillIndirectCount(v, d, Decode(Get(v.disk, d.indirect)), n - 123, m - 123);
    } else if m <= 123 {
      AllocTableTakes(v, d.direct, 0, n, m);
      TakeZeroedCount(v, m - n);
    } else {
      AllocNewIndirectSucceeds(v, d, n, m);
    }
  }

  lemma AllDirect(table: DirectTable, n: nat)
    requires NonzeroUpTo(table, n) && n > 123
    ensures NonzeroUpTo(table, 123)
  {
  }

  /** Releases the sectors of XS in order; each must be marked when its turn comes. */
  function ReleaseAll(v: Volume, xs: seq<Word>): (r: Volume)
    requires Sane(v) && NoDup(xs) && Marked(v.used, xs)
    ensures Sane(r)
    decreases |xs|
  {
    if xs == [] then v
    else
      assert xs[0] in xs && forall x :: x in xs[1..] ==> x in xs && x != xs[0];
      ReleaseAll(Release(v, xs[0]), xs[1..])
  }

  ghost predicate ReleaseEffects(v: Volume, v': Volume, xs: seq<Word>) {
    && MapOk(v) && MapOk(v') && MapOwned(v') == MapOwned(v)
    && v' == v.(disk := v'.disk, used := v'.used)
    && |v'.disk| == |v.disk| && |v'.used| == |v.used|
    && (Synced(v) ==> Synced(v'))
    && (forall x :: 0 <= x < |v.used| ==> (v'.used[x] <==> v.used[x] && x !in xs))
    && (forall x :: x !in MapOwned(v) ==> Get(v'.disk, x) == Get(v.disk, x))
  }

  lemma {:induction false} ReleaseAllEffect(v: Volume, xs: seq<Word>)
    requires MapOk(v) && NoDup(xs) && Marked(v.used, xs) && 0 !in xs && Disjoint(xs, MapOwned(v))
    ensures ReleaseEffects(v, ReleaseAll(v, xs), xs)
    decreases |xs|
  {
    hide MapOk, MapOwned, Synced, Release;
    MapOkSane(v);
    if xs != [] {
      var rest := xs[1..];
      assert xs == [xs[0]] + rest;
      assert xs[0] in xs && forall x :: x in rest ==> x in xs && x != xs[0];
      ReleaseEffect(v, xs[0]);
      var v1 := Release(v, xs[0]);
      ReleaseAllEffect(v1, rest);
    }
  }

  /** The table that is filled does not depend on the length field. */
  lemma AllocInodeLength(v: Volume, d: InodeDisk, m: nat, length: Length)
    requires Sane(v) && m <= 251
    ensures var r := AllocInode(v, d, m);
            AllocInode(v, d.(length := length), m) == r.(inode := r.inode.(length := length))
  {
  }

  /** Allocation does not touch what kind of file an inode is for. */
  lemma AllocInodeKeeps(v: Volume, d: InodeDisk, m: nat)
    requires Sane(v) && m <= 251
    ensures var d' := AllocInode(v, d, m).inode; d'.directory == d.directory && d'.magic == d.magic && d'.length == d.length
  {
    hide AllocTable, TakeSector;
  }
}
