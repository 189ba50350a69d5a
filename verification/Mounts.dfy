/** The file system as it runs: the open inodes, the sector cache and the packed
    free map together are one state of the machine in FileRuns, and every call
    on them is that machine's step, with its reply. */
module Mounts {
  import opened Basics
  import opened Blocks
  import opened FileData
  import opened Inodes
  import opened Volumes
  import opened Allocation
  import opened FileSystem
  import opened FileRuns
  import opened FileConservation
  import opened FileFormat
  import opened InodeOps
  import opened OpenTable
  import BufferCache
  import Bitmaps

  /** The table of a file of 251 sectors ends at the doubly indirect entry, 0.  Reading at the
      file's very end follows it to sector 0, where the free map's inode is, and on to the
      first sector of the free map: both exist. */
  lemma ReadLocated(fs: FileSys, s: Word)
    requires Inv(fs) && s in fs.live
    ensures var d, disk := fs.live[s], fs.vol.disk;
            && Located(disk, d) && d.dindirect < |disk|
            && Decode(Get(disk, d.dindirect))[0] < |disk|
  {
    hide Inv, Owned, SlackZero, NoDup, Decode, Region, FileSectors, MapOwned, Located, EncodeInode;
    OwnerMarks(fs);
    MapOkSane(fs.vol);
    RegionOwned(fs, s);
    MapSector(fs);
    FileOkLocated(fs.vol.disk, fs.vol.used, fs.live[s]);
  }

  /** Read as a table, sector 0 starts with the first sector of the free map. */
  lemma MapSector(fs: FileSys)
    requires Inv(fs)
    ensures Decode(Get(fs.vol.disk, 0))[0] < |fs.vol.disk|
  {
    hide Inv, Owned, SlackZero, NoDup, Decode, Region, FileSectors, MapOwned, EncodeInode;
    OwnerMarks(fs);
    RegionOwned(fs, 0);
    MapFirst(fs.vol, fs.live[0]);
    InodeFirstWord(fs.live[0]);
  }

  lemma InodeFirstWord(d: InodeDisk)
    ensures Decode(EncodeInode(d))[0] == d.direct[0]
  {
    hide Encode, Decode;
    DecodeEncode(Words(d));
  }

  /** The free map's file has a first sector. */
  lemma MapFirst(v: Volume, d: InodeDisk)
    requires MapOk(v) && v.mapFile == Some(d)
    ensures d.direct[0] < |v.disk|
  {
    hide SlackZero, NoDup, Owned, Shape;
    OwnedParts(d, v.disk);
    assert FileSectors(d, v.disk)[0] == d.direct[0];
  }

  /** The in-memory inodes hold what is on disk. */
  ghost predicate Loaded(inodes: seq<Inode>, live: map<Word, InodeDisk>)
    reads inodes
  {
    forall x :: x in inodes ==> x.sector in live && x.data == live[x.sector]
  }

  lemma StoredInode(fs: FileSys, s: Word)
    requires Inv(fs) && s in fs.live
    ensures s < |fs.vol.disk| && DecodeInode(fs.vol.disk[s]) == fs.live[s]
  {
    hide Inv, DecodeInode, EncodeInode, FileOk, Owned;
    assert FileInv(fs, s) by { LiveInv(fs, s); }
    InodeRoundTrip(fs.live[s]);
  }

  lemma LiveInv(fs: FileSys, s: Word)
    requires Inv(fs) && s in fs.live
    ensures FileInv(fs, s)
  {
    hide FileInv;
  }

  /** The state in memory and on disk is the state FS: the same volume, the same openers, and
      the free map's file among the open ones. */
  ghost predicate Mounted(table: InodeTable, fs: FileSys)
    reads table, table.inodes, table.store, table.store.cache, table.store.cache.slots,
          table.store.freeMap, table.store.freeMap.words, table.store.mapFile
  {
    && table.Valid() && table.store.Valid() && Inv(fs)
    && table.store.Vol() == fs.vol && table.table == fs.open
    && table.store.mapFile != null && table.store.mapFile in table.inodes && table.store.mapFile.sector == 0
    && Loaded(table.inodes, fs.live)
  }

  class Mount {
    const table: InodeTable
    ghost var fs: FileSys

    ghost predicate Valid()
      reads this, table, table.inodes, table.store, table.store.cache, table.store.cache.slots,
            table.store.freeMap, table.store.freeMap.words, table.store.mapFile
    {
      Mounted(table, fs)
    }

    constructor (t: InodeTable, ghost f: FileSys)
      requires Mounted(t, f)
      ensures table == t && fs == f && Valid()
    {
      hide Mounted;
      table, fs := t, f;
    }

    /** inode_open; without memory for a new inode, nothing happens. */
    method Open(sector: Word, memory: bool) returns (inode: Inode?)
      requires Valid() && Enabled(fs, Op.Open(sector))
      modifies this`fs, table`inodes, table`table, table.inodes`openCnt, table.store.cache`disk, table.store.cache.slots
      ensures Valid() && (inode == null <==> sector !in old(fs.open) && !memory)
      ensures fs == if inode == null then old(fs) else Step(old(fs), Op.Open(sector))
      ensures inode != null ==> inode in table.inodes && inode.sector == sector
      ensures forall x :: x in table.inodes ==> x in old(table.inodes) || fresh(x)
    {
      hide Inv, BufferCache.View, BufferCache.Coherent, MapOk, DecodeInode, SectorSet, Distinct, Reopened, Bitmaps.AllBits,
        Step, Enabled, AbstractStep, Files;
      OpenStep(fs, sector);
      StoredInode(fs, sector);
      StepRefines(fs, Op.Open(sector));
      inode := table.OpenAt(sector, memory);
      if inode != null {
        fs := Step(fs, Op.Open(sector));
      }
    }

    /** inode_read_at. */
    method Read(inode: Inode, size: int, offset: nat) returns (buffer: seq<Byte>)
      requires Valid() && inode in table.inodes && Enabled(fs, Op.Read(inode.sector, size, offset))
      modifies table.store.cache`disk, table.store.cache.slots
      ensures Valid() && fs == Step(old(fs), Op.Read(inode.sector, size, offset))
      ensures Data(buffer) == Answer(old(fs), Op.Read(inode.sector, size, offset))
      ensures inode.sector in FileRuns.View(fs).files && buffer == Slice(FileRuns.View(fs).files[inode.sector], size, offset)
    {
      hide Inv, BufferCache.View, BufferCache.Coherent, MapOk, Located, Decode, Contents, SectorSet, Distinct, Bitmaps.AllBits;
      ReadLocated(fs, inode.sector);
      AnswerRefines(fs, Op.Read(inode.sector, size, offset));
      buffer := table.store.ReadAt(inode, size, offset);
    }

    /** inode_write_at. */
    method Write(inode: Inode, buf: seq<Byte>, offset: nat) returns (written: nat)
      requires Valid() && inode in table.inodes && Enabled(fs, Op.Write(inode.sector, buf, offset))
      modifies this`fs, inode`data, table.store.cache`disk, table.store.cache.slots, table.store.freeMap.words
      ensures Valid() && fs == Step(old(fs), Op.Write(inode.sector, buf, offset))
      ensures Count(written) == Answer(old(fs), Op.Write(inode.sector, buf, offset))
    {
      hide Inv, BufferCache.View, BufferCache.Coherent, MapOk, SectorSet, Distinct, Bitmaps.AllBits, WriteFile, Writable, Step,
        Answer, Enabled, AbstractStep, Files;
      WriteStep(fs, inode.sector, buf, offset);
      MapSector(fs);
      FileWritable(fs, inode.sector);
      StepRefines(fs, Op.Write(inode.sector, buf, offset));
      Sole(table.inodes, inode);
      written := table.store.WriteAt(inode, buf, offset);
      fs := Step(fs, Op.Write(inode.sector, buf, offset));
    }

    /** inode_remove. */
    method Remove(inode: Inode)
      requires Valid() && inode in table.inodes && Enabled(fs, Op.Remove(inode.sector))
      modifies this`fs, table`table, inode`removed
      ensures Valid() && fs == Step(old(fs), Op.Remove(inode.sector))
    {
      hide Inv, BufferCache.View, BufferCache.Coherent, MapOk, SectorSet, Distinct, Bitmaps.AllBits, AbstractStep, Reopened,
        InodeTable.Valid;
      StepRefines(fs, Op.Remove(inode.sector));
      table.MarkRemoved(inode);
      fs := Step(fs, Op.Remove(inode.sector));
    }

    /** inode_deny_write. */
    method Deny(inode: Inode)
      requires Valid() && inode in table.inodes && Enabled(fs, DenyWrite(inode.sector))
      modifies this`fs, table`table, inode`denyWriteCnt
      ensures Valid() && fs == Step(old(fs), DenyWrite(inode.sector))
    {
      hide Inv, BufferCache.View, BufferCache.Coherent, MapOk, SectorSet, Distinct, Bitmaps.AllBits, AbstractStep, Reopened;
      StepRefines(fs, DenyWrite(inode.sector));
      table.Deny(inode);
      fs := Step(fs, DenyWrite(inode.sector));
    }

    /** inode_allow_write. */
    method Allow(inode: Inode)
      requires Valid() && inode in table.inodes && Enabled(fs, AllowWrite(inode.sector))
      modifies this`fs, table`table, inode`denyWriteCnt
      ensures Valid() && fs == Step(old(fs), AllowWrite(inode.sector))
    {
      hide Inv, BufferCache.View, BufferCache.Coherent, MapOk, SectorSet, Distinct, Bitmaps.AllBits, AbstractStep, Reopened;
      StepRefines(fs, AllowWrite(inode.sector));
      table.Allow(inode);
      fs := Step(fs, AllowWrite(inode.sector));
    }

    /** inode_close. */
    method Close(inode: Inode)
      requires Valid() && inode in table.inodes && Enabled(fs, Op.Close(inode.sector))
      modifies this`fs, table`inodes, table`table, inode`openCnt, table.store.cache`disk, table.store.cache.slots,
               table.store.freeMap.words
      ensures Valid() && fs == Step(old(fs), Op.Close(inode.sector))
      ensures forall x :: x in table.inodes ==> x in old(table.inodes)
    {
      hide Inv, BufferCache.View, BufferCache.Coherent, MapOk, SectorSet, Distinct, Bitmaps.AllBits, AbstractStep, Reopened,
        Step, Released, MapOwned, NoDup, Marked, Disjoint, ReleaseAll, Enabled;
      CloseStep(fs, inode.sector);
      Sole(table.inodes, inode);
      StepRefines(fs, Op.Close(inode.sector));
      table.CloseInode(inode);
      fs := Step(fs, Op.Close(inode.sector));
    }

    /** The part of filesys_create below directories. */
    method Create(length: Length, directory: bool) returns (sector: Word)
      requires Valid() && Enabled(fs, Op.Create(length, directory))
      modifies this`fs, table.store.cache`disk, table.store.cache.slots, table.store.freeMap.words
      ensures Valid() && fs == Step(old(fs), Op.Create(length, directory))
      ensures Number(sector) == Answer(old(fs), Op.Create(length, directory))
    {
      hide Inv, BufferCache.View, BufferCache.Coherent, MapOk, SectorSet, Distinct, Bitmaps.AllBits, AbstractStep, Step, Answer,
        CreateFile;
      CreateStep(fs, length, directory);
      StepRefines(fs, Op.Create(length, directory));
      var ok;
      ghost var data;
      ok, sector, data := AllocateAndCreate(table.store, length, directory, true);
      fs := Step(fs, Op.Create(length, directory));
    }
  }

  /** A sector has one open inode. */
  lemma Sole(inodes: seq<Inode>, inode: Inode)
    requires Distinct(inodes) && inode in inodes
    ensures forall x :: x in inodes && x.sector == inode.sector ==> x == inode
  {
  }

  lemma OpenStep(fs: FileSys, s: Word)
    requires Inv(fs) && Enabled(fs, Op.Open(s))
    ensures s in fs.live && Step(fs, Op.Open(s)) == fs.(open := Reopened(fs.open, Op.Open(s)))
  {
    hide Inv, Reopened;
  }

  /** What a write step leaves, in terms of inode_write_at's function on volumes. */
  lemma WriteStep(fs: FileSys, s: Word, buf: seq<Byte>, off: nat)
    requires Inv(fs) && Enabled(fs, Op.Write(s, buf, off))
    ensures Sane(fs.vol) && s != 0 && s in fs.live && s in fs.open && Small(fs.live[s])
    ensures fs.open[s].denyWriteCnt == 0 ==> off + |buf| <= 251 * 512
    ensures var op := Op.Write(s, buf, off);
            if fs.open[s].denyWriteCnt > 0 then Step(fs, op) == fs && Answer(fs, op) == Count(0)
            else WriteLeaves(fs, s, Step(fs, op), WriteFile(fs.vol, s, fs.live[s], buf, off), Answer(fs, op))
  {
    hide Inv, WriteFile, CountFree, FileChange, Owned;
    FileSmall(fs, s);
    if fs.open[s].denyWriteCnt == 0 {
      var got := WriteChanges(fs, s, buf, off);
      var r := WriteFile(fs.vol, s, fs.live[s], buf, off);
      ChangeSmall(fs, r.vol, s, r.inode, got);
    }
  }

  ghost predicate WriteLeaves(fs: FileSys, s: Word, fs': FileSys, r: WriteResult, reply: Reply) {
    fs'.vol == r.vol && fs'.live == fs.live[s := r.inode] && fs'.open == fs.open && reply == Count(r.written)
  }

  /** What a close step needs and leaves. */
  lemma CloseStep(fs: FileSys, s: Word)
    requires Inv(fs) && Enabled(fs, Op.Close(s))
    ensures s != 0 && s in fs.live && s in fs.open && Small(fs.live[s]) && MapOk(fs.vol) && Sane(fs.vol)
    ensures var xs := Released(s, fs.live[s], fs.vol.disk);
            NoDup(xs) && Marked(fs.vol.used, xs) && 0 !in xs && Disjoint(xs, MapOwned(fs.vol))
    ensures Sectors(fs.live[s].length) > 123 ==>
              fs.live[s].indirect < |fs.vol.disk| && fs.live[s].indirect !in MapOwned(fs.vol)
    ensures var fs' := Step(fs, Op.Close(s));
            && fs'.open == Reopened(fs.open, Op.Close(s))
            && (if Deletes(fs.open, Op.Close(s))
                then fs'.vol == ReleaseAll(fs.vol, Released(s, fs.live[s], fs.vol.disk)) && fs'.live == fs.live - {s}
                else fs'.vol == fs.vol && fs'.live == fs.live)
  {
    hide Inv, MapOk, MapOwned, NoDup, Marked, Disjoint, ReleaseAll, Released, Writable, FileOk, EncodeInode, Get;
    FileSmall(fs, s);
    ReleasedMarked(fs, s);
    FileWritable(fs, s);
    WritableFacts(fs.vol, s, fs.live[s]);
    IndexNonzero(fs, s);
  }

  lemma IndexNonzero(fs: FileSys, s: Word)
    requires Inv(fs) && s in fs.live
    ensures Sectors(fs.live[s].length) > 123 ==> fs.live[s].indirect != 0
  {
    hide Inv, NoDup, Owned, SlackZero, NonzeroUpTo, EncodeInode, Get, Region;
    RegionOwned(fs, s);
  }

  /** free_map_allocate and inode_create, and free_map_release when that fails.  Without memory
      for the inode the free map is as before. */
  method AllocateAndCreate(store: Store, length: Length, directory: bool, memory: bool)
      returns (ok: bool, sector: Word, ghost data: InodeDisk)
    requires store.Valid() && length <= 251 * 512
    modifies store.cache`disk, store.cache.slots, store.freeMap.words
    ensures store.Valid() && Sane(old(store.Vol()))
    ensures if memory then CreateFile(old(store.Vol()), length, directory) == CreateResult(ok, store.Vol(), sector, data)
            else !ok && store.Vol().used == old(store.Vol()).used
  {
    hide BufferCache.View, BufferCache.Coherent, MapOk, MapOwned, Bitmaps.AllBits, TakeSector, CreateInode, Persist;
    ghost var v0 := store.Vol();
    MapOkSane(v0);
    var taken := store.FreeMapAllocate();
    if taken.None? {
      return false, 0, NewInode(length, directory);
    }
    TakeSectorEffect(v0);
    sector := taken.value;
    ghost var v1 := store.Vol();
    ok, data := store.Create(sector, length, directory, memory);
    if !ok {
      if memory {
        FailedCreateMarks(v1, sector, length, directory);
      }
      assert sector !in MapOwned(store.Vol()) && store.Vol().used[sector];
      store.FreeMapRelease(sector);
    }
  }

  /** A failed inode_create has left every sector marked. */
  lemma FailedCreateMarks(v: Volume, s: Word, length: Length, directory: bool)
    requires MapOk(v) && length <= 251 * 512
    requires !CreateInode(v, s, length, directory).ok
    ensures Full(CreateInode(v, s, length, directory).vol.used)
  {
    hide MapOk, AllocInode, NewInode, FileOk, Full, CountFree;
    MapOkSane(v);
    EmptyFileOk(v, directory);
    NewInodeLength(length, directory);
    AllocInodeLength(v, NewInode(0, directory), Sectors(length), length);
    SectorsMonotonic(0, length);
    FailedGrowthFillsDisk(v, NewInode(0, directory), Sectors(length));
  }

  /** What a create step leaves, in terms of the function on volumes. */
  lemma CreateStep(fs: FileSys, length: Length, directory: bool)
    requires Inv(fs) && Enabled(fs, Op.Create(length, directory))
    ensures Sane(fs.vol) && length <= 251 * 512
    ensures var r := CreateFile(fs.vol, length, directory);
            var fs' := Step(fs, Op.Create(length, directory));
            && fs'.vol == r.vol && fs'.live == fs.live[r.sector := r.inode] && fs'.open == fs.open
            && r.sector !in fs.live && Answer(fs, Op.Create(length, directory)) == Number(r.sector)
  {
    hide Inv, CreateFile, CountFree, FileChange, Owned;
    OwnerMarks(fs);
    FileSmall(fs, 0);
    var got := CreateChanges(fs, length, directory);
    var r := CreateFile(fs.vol, length, directory);
    ChangeSmall(fs, r.vol, r.sector, r.inode, got);
  }

  /** The volume of free_map_init. */
  lemma BlankBits(used: seq<bool>, disk: seq<Block>, pad: seq<bool>)
    requires |used| == |disk| && forall i :: 0 <= i < |used| ==> (used[i] <==> i < 2)
    ensures Volume(disk, used, pad, None) == BlankVolume(disk, pad)
  {
    assert used == seq(|disk|, i => i < 2);
  }

  /** What inode_create leaves of the free map's file, before the file is opened. */
  lemma MapInode(disk: seq<Block>, pad: seq<bool>)
    requires Formattable(disk, pad)
    ensures var v := BlankVolume(disk, pad);
            && MapOk(v) && MapOwned(v) == [] && 0 < |v.disk|
            && var r := CreateInode(v, 0, MapLength(disk, pad), false);
            && r.ok && MapOk(r.vol) && |r.vol.disk| == |disk| && r.vol.mapFile.None?
            && r.vol.disk[0] == EncodeInode(r.inode)
            && MapOk(r.vol.(mapFile := Some(r.inode)))
            && MapCreated(v) == Persist(r.vol.(mapFile := Some(r.inode)))
  {
    hide MapOk, MapOwned, Owned, FileOk, EncodeInode, CountFree, Contents, CreateInode, Persist;
    BlankSane(disk, pad);
    FileFormat.BlankMapOk(disk, pad);
    BlankCount(disk, pad);
    var v := BlankVolume(disk, pad);
    var got := CreateInodeEffect(v, 0, MapLength(disk, pad), false);
    var r := CreateInode(v, 0, MapLength(disk, pad), false);
    EffectMapOwned(v, r.vol, got, [0]);
    WithMapFile(r.vol, r.inode);
    MapOkSane(r.vol.(mapFile := Some(r.inode)));
  }

  lemma BlankCount(disk: seq<Block>, pad: seq<bool>)
    requires Formattable(disk, pad)
    ensures Needed(0, Sectors(MapLength(disk, pad))) <= CountFree(BlankVolume(disk, pad).used)
  {
    hide CountFree;
    BlankFree(|disk|);
  }

  /** free_map_init. */
  method NewStore(c: BufferCache.Cache) returns (store: Store, ghost pad: seq<bool>)
    requires c.Valid() && 2 <= |c.disk| < 0x1_0000_0000
    ensures fresh(store) && fresh(store.freeMap) && fresh(store.freeMap.words) && store.cache == c && store.mapFile == null
    ensures store.Valid() && store.Vol() == BlankVolume(c.Contents(), pad)
    ensures |pad| == 32 * Bitmaps.ElemCnt(|c.disk|) - |c.disk|
  {
    hide BufferCache.View, BufferCache.Coherent, MapOk, Bitmaps.AllBits, BlankVolume;
    var m := FreeMapInit(|c.disk|);
    pad := m.Pad();
    store := new Store(c, m);
    BlankBits(m.Bits(), c.Contents(), pad);
  }

  /** free_map_init and free_map_create: the free map and its file, opened. */
  method CreateFreeMap(c: BufferCache.Cache) returns (table: InodeTable, ghost pad: seq<bool>)
    requires c.Valid()
    requires Formattable(c.Contents(), seq(32 * Bitmaps.ElemCnt(|c.disk|) - |c.disk|, _ => false))
    modifies c`disk, c.slots
    ensures Formattable(old(c.Contents()), pad)
    ensures fresh(table) && fresh(table.inodes) && fresh(table.store)
    ensures fresh(table.store.freeMap) && fresh(table.store.freeMap.words)
    ensures table.store.cache == c && table.Valid() && table.store.Valid()
    ensures table.store.Vol() == MapCreated(BlankVolume(old(c.Contents()), pad))
    ensures |table.inodes| == 1 && table.inodes[0].sector == 0 && table.store.mapFile == table.inodes[0]
    ensures table.table == map[0 := OpenInode(1, false, 0)]
  {
    hide BufferCache.View, BufferCache.Coherent, MapOk, MapOwned, Bitmaps.AllBits, CreateInode, MapCreated, Persist,
      EncodeInode, DecodeInode, BlankVolume, Distinct, SectorSet;
    var store;
    store, pad := NewStore(c);
    ghost var disk := c.Contents();
    MapInode(disk, pad);
    ghost var r := CreateInode(BlankVolume(disk, pad), 0, MapLength(disk, pad), false);
    table := new InodeTable(store);
    assert 4 * store.freeMap.words.Length == MapLength(disk, pad);
    GetAt(r.vol.disk, 0);
    OpenMapFile(table, 4 * store.freeMap.words.Length, r.inode);
    store.WriteBackMap();
  }

  /** inode_create and inode_open of the free map's file. */
  method OpenMapFile(table: InodeTable, length: Length, ghost d: InodeDisk)
    requires table.Valid() && table.store.Valid() && table.inodes == [] && table.table == map[]
    requires table.store.mapFile == null && 0 < |table.store.cache.disk|
    requires length <= 251 * 512 && MapOwned(table.store.Vol()) == []
    requires var r := CreateInode(table.store.Vol(), 0, length, false);
             r.ok && r.inode == d && Get(r.vol.disk, 0) == EncodeInode(d) && MapOk(r.vol.(mapFile := Some(d)))
    modifies table`inodes, table`table, table.store`mapFile, table.store.cache`disk, table.store.cache.slots,
             table.store.freeMap.words
    ensures table.Valid() && table.store.Valid()
    ensures table.store.Vol() == CreateInode(old(table.store.Vol()), 0, length, false).vol.(mapFile := Some(d))
    ensures |table.inodes| == 1 && fresh(table.inodes) && table.inodes[0].sector == 0 && table.store.mapFile == table.inodes[0]
    ensures table.table == map[0 := OpenInode(1, false, 0)]
  {
    hide BufferCache.View, BufferCache.Coherent, MapOk, MapOwned, Bitmaps.AllBits, CreateInode, EncodeInode, DecodeInode,
      Distinct, SectorSet;
    var ok;
    ghost var data;
    ok, data := table.store.Create(0, length, false, true);
    InodeRoundTrip(d);
    var inode := table.OpenAt(0, true);
    table.store.mapFile := inode;
  }

  /** What inode_create leaves of the root directory. */
  lemma RootInode(disk: seq<Block>, pad: seq<bool>)
    requires Formattable(disk, pad)
    ensures Sane(BlankVolume(disk, pad)) && BlankVolume(disk, pad).mapFile.None?
    ensures var v := MapCreated(BlankVolume(disk, pad));
            && MapOk(v) && 1 < |v.disk| && 1 !in MapOwned(v) && v.mapFile.Some?
            && var r, fs := CreateInode(v, 1, ROOT_LENGTH, true), RootMade(disk, pad);
            && fs.vol == r.vol && r.vol.mapFile == v.mapFile && 0 in fs.live && fs.live[0] == v.mapFile.value
  {
    hide MapOk, MapOwned, Synced, EncodeInode, CountFree, CreateInode, Inv, BlankVolume, MapCreated, Owned;
    BlankSane(disk, pad);
    var v := BlankVolume(disk, pad);
    var got := MapFileCreated(disk, pad);
    MapOkSane(MapCreated(v));
    RootMadeInv(disk, pad);
    OwnerMarks(RootMade(disk, pad));
    var d := CreateInode(v, 0, MapLength(disk, pad), false).inode;
    MapOnlyInv(MapCreated(v), d);
    RootCreated(MapOnly(MapCreated(v), d));
  }

  // ---- closing and opening the free map ----

  /** What is left of FS once it is mounted again: the same sectors, inodes and files, no openers
      but the free map's, and the bits past the end of the map cleared. */
  function Remounted(fs: FileSys): FileSys {
    fs.(vol := fs.vol.(pad := seq(|fs.vol.pad|, _ => false)), open := map[0 := OpenInode(1, false, 0)])
  }

  lemma RemountedInv(fs: FileSys)
    requires Inv(fs)
    ensures Inv(Remounted(fs)) && FileRuns.View(Remounted(fs)) == Abstract(Files(fs), map[])
  {
    hide Inv, Files;
    OpenFacts(fs);
    var fs1 := fs.(vol := Remounted(fs).vol);
    PadInv(fs, Remounted(fs).vol.pad);
    OpenTableInv(fs1, Remounted(fs).open);
    assert Remounted(fs) == fs1.(open := Remounted(fs).open);
  }

  function WithPad(fs: FileSys, pad: seq<bool>): FileSys { fs.(vol := fs.vol.(pad := pad)) }

  lemma PadRegion(fs: FileSys, pad: seq<bool>, s: Word)
    ensures Region(WithPad(fs, pad), s) == Region(fs, s)
  {
  }

  lemma PadFile(fs: FileSys, pad: seq<bool>, s: Word)
    requires Inv(fs) && s in fs.live
    ensures FileInv(WithPad(fs, pad), s)
    ensures Small(fs.live[s]) && Contents(fs.live[s], WithPad(fs, pad).vol.disk) == Contents(fs.live[s], fs.vol.disk)
  {
    hide Inv, FileOk, Owned, EncodeInode, Get, Contents, Region;
    LiveInv(fs, s);
    RegionOwned(fs, s);
    PadRegion(fs, pad, s);
  }

  lemma PadAccounted(fs: FileSys, pad: seq<bool>)
    requires Accounted(fs)
    ensures Accounted(WithPad(fs, pad))
  {
    hide Region;
    forall s ensures Region(WithPad(fs, pad), s) == Region(fs, s) {
      PadRegion(fs, pad, s);
    }
  }

  /** The bits past the end of the map are nobody's. */
  lemma PadInv(fs: FileSys, pad: seq<bool>)
    requires Inv(fs) && |pad| == |fs.vol.pad|
    ensures Inv(WithPad(fs, pad)) && Files(WithPad(fs, pad)) == Files(fs)
  {
    hide MapOk, Synced, FileInv, Accounted, Contents;
    SyncedPad(fs.vol, pad);
    PadAccounted(fs, pad);
    forall s | s in fs.live
      ensures FileInv(WithPad(fs, pad), s) && Small(fs.live[s])
      ensures Contents(fs.live[s], WithPad(fs, pad).vol.disk) == Contents(fs.live[s], fs.vol.disk)
    {
      PadFile(fs, pad, s);
    }
  }

  lemma SyncedPad(v: Volume, pad: seq<bool>)
    requires MapOk(v) && Synced(v) && |pad| == |v.pad|
    ensures MapOk(v.(pad := pad)) && Synced(v.(pad := pad))
  {
    hide FileOk, Contents, Bitmaps.Image;
  }

  /** What bitmap_read finds in the free map's file. */
  lemma MapReadBack(v: Volume, d: InodeDisk)
    requires MapOk(v) && Synced(v) && v.mapFile == Some(d)
    ensures Small(d) && |Bitmaps.BitsOf(Contents(d, v.disk))| == |v.used| + |v.pad|
    ensures Bitmaps.BitsOf(Contents(d, v.disk))[..|v.used|] == v.used
  {
    FileOkSmall(v.disk, v.used, d);
    hide FileOk, Contents, Bitmaps.Image, Bitmaps.BitsOf;
    var pad :| |pad| == |v.pad| && Contents(d, v.disk) == Bitmaps.Image(v.used + pad);
    Bitmaps.BitsOfImage(v.used + pad);
  }

  /** bitmap_read from the free map's open file. */
  method ReadMap(store: Store, inode: Inode, ghost fs: FileSys)
    requires Inv(fs) && inode.data == fs.live[0]
    requires store.cache.Valid() && store.cache.Contents() == fs.vol.disk
    requires store.freeMap.Valid() && store.freeMap.bitCnt == |fs.vol.used|
    requires store.freeMap.bitCnt + |store.freeMap.Pad()| == |fs.vol.used| + |fs.vol.pad|
    requires store.cache.slots as object != store.freeMap.words
    modifies store.cache`disk, store.cache.slots, store.freeMap.words
    ensures store.cache.Valid() && store.cache.Contents() == fs.vol.disk
    ensures store.freeMap.Bits() == fs.vol.used && store.freeMap.Pad() == seq(|fs.vol.pad|, _ => false)
  {
    hide BufferCache.View, BufferCache.Coherent, Inv, MapOk, Bitmaps.AllBits, Located, Decode, Contents, Bitmaps.BitsOf, Synced;
    OwnerMarks(fs);
    MapSize(fs.vol, fs.live[0]);
    ReadLocated(fs, 0);
    var buffer := store.ReadAt(inode, 4 * store.freeMap.words.Length, 0);
    MapReadBack(fs.vol, fs.live[0]);
    assert buffer == Contents(fs.live[0], fs.vol.disk);
    store.freeMap.ReadBytes(buffer);
  }

  /** free_map_open: the bitmap in memory, whatever it held, becomes the one in the free map's file. */
  method FreeMapOpen(table: InodeTable, ghost fs: FileSys)
    requires Inv(fs) && table.Valid() && table.inodes == [] && table.table == map[]
    requires table.store.cache.Valid() && table.store.cache.Contents() == fs.vol.disk
    requires table.store.freeMap.Valid() && table.store.freeMap.bitCnt == |fs.vol.used|
    requires table.store.freeMap.bitCnt + |table.store.freeMap.Pad()| == |fs.vol.used| + |fs.vol.pad|
    requires table.store.cache.slots as object != table.store.freeMap.words
    modifies table`inodes, table`table, table.store`mapFile, table.store.cache`disk, table.store.cache.slots,
             table.store.freeMap.words
    ensures Mounted(table, Remounted(fs)) && fresh(table.inodes)
  {
    hide BufferCache.View, BufferCache.Coherent, Inv, MapOk, Bitmaps.AllBits, DecodeInode, SectorSet, Distinct, Synced, Files;
    OwnerMarks(fs);
    StoredInode(fs, 0);
    var inode := table.OpenAt(0, true);
    ReadMap(table.store, inode, fs);
    table.store.mapFile := inode;
    RemountedInv(fs);
    OwnerMarks(Remounted(fs));
    MapSize(fs.vol, fs.live[0]);
    assert table.store.Vol() == Remounted(fs).vol;
  }

  lemma MapSize(v: Volume, d: InodeDisk)
    requires MapOk(v) && v.mapFile == Some(d)
    ensures Small(d) && 0 < d.length == (|v.used| + |v.pad|) / 8 && (|v.used| + |v.pad|) % 8 == 0
    ensures |v.used| == |v.disk|
  {
    hide FileOk;
    FileOkSmall(v.disk, v.used, d);
  }

  /** free_map_close: the free map's inode goes off the list; nothing reaches the disk. */
  method FreeMapClose(mount: Mount)
    requires mount.Valid() && mount.fs.open == map[0 := OpenInode(1, false, 0)]
    modifies mount.table`inodes, mount.table`table, mount.table.store`mapFile, mount.table.store.mapFile`openCnt
    ensures mount.table.Valid() && mount.table.inodes == [] && mount.table.table == map[]
  {
    hide BufferCache.View, BufferCache.Coherent, Inv, MapOk, Bitmaps.AllBits;
    var inode := mount.table.store.mapFile;
    mount.table.store.mapFile := null;
    mount.table.Unlink(inode);
    inode.openCnt := 0;
    NoneOpen(mount.table);
  }

  lemma NoneOpen(table: InodeTable)
    requires table.Valid() && table.table == map[]
    ensures table.inodes == []
  {
    HasFirst(table.inodes);
  }

  lemma HasFirst(inodes: seq<Inode>)
    ensures inodes != [] ==> exists x :: x in inodes
  {
    if inodes != [] {
      assert inodes[0] in inodes;
    }
  }

  /** filesys_init with format: free_map_init, free_map_create and dir_create of the root, in
      the same order, then free_map_close and free_map_open.  OK is dir_create's result. */
  method Format(c: BufferCache.Cache, de: seq<Byte>) returns (ok: bool, mount: Mount, ghost pad: seq<bool>)
    requires c.Valid() && RootEntry(de)
    requires Formattable(c.Contents(), seq(32 * Bitmaps.ElemCnt(|c.disk|) - |c.disk|, _ => false))
    modifies c`disk, c.slots
    ensures ok && fresh(mount) && Formattable(old(c.Contents()), pad)
    ensures mount.Valid() && mount.fs == Remounted(Formatted(old(c.Contents()), pad, de))
  {
    hide Mounted, Formattable, RootMade, Remounted, Step, Enabled, Answer, Inv, Files;
    ghost var disk := c.Contents();
    var made;
    ok, made, pad := DoFormat(c, de);
    FormatInv(disk, pad, de);
    mount := Reopen(made);
  }

  /** free_map_close and free_map_open at the end of filesys_init. */
  method Reopen(made: Mount) returns (mount: Mount)
    requires made.Valid() && made.fs.open == map[0 := OpenInode(1, false, 0)]
    modifies made.table`inodes, made.table`table, made.table.store`mapFile, made.table.store.mapFile`openCnt,
             made.table.store.cache`disk, made.table.store.cache.slots, made.table.store.freeMap.words
    ensures fresh(mount) && mount.Valid() && mount.fs == Remounted(old(made.fs))
  {
    hide BufferCache.View, BufferCache.Coherent, Inv, MapOk, Bitmaps.AllBits, SectorSet, Distinct, Loaded;
    var table := made.table;
    FreeMapClose(made);
    FreeMapOpen(table, made.fs);
    mount := new Mount(table, Remounted(made.fs));
  }

  /** filesys_done, and filesys_init on the same disk: the cache is flushed, and everything in
      memory is built anew from the disk.  Every file is there, and nothing is open. */
  method Remount(mount: Mount) returns (again: Mount)
    requires mount.Valid()
    modifies mount.table.store.cache`disk, mount.table.store.cache.slots
    ensures fresh(again) && again.Valid() && again.fs == Remounted(mount.fs)
    ensures Inv(mount.fs) && FileRuns.View(again.fs) == Abstract(FileRuns.View(mount.fs).files, map[])
  {
    hide BufferCache.View, BufferCache.Coherent, Inv, MapOk, Bitmaps.AllBits, SectorSet, Distinct, Loaded, Files, BlankVolume;
    TwoSectors(mount.fs);
    var cache := mount.table.store.cache;
    cache.FlushAll();
    var device := new BufferCache.Cache(cache.disk);
    var store;
    ghost var pad;
    store, pad := NewStore(device);
    var table := new InodeTable(store);
    FreeMapOpen(table, mount.fs);
    RemountedInv(mount.fs);
    again := new Mount(table, Remounted(mount.fs));
  }

  lemma TwoSectors(fs: FileSys)
    requires Inv(fs)
    ensures 2 <= |fs.vol.disk| < 0x1_0000_0000 && |fs.vol.used| == |fs.vol.disk|
  {
    hide Inv, EncodeInode, Region, SlackZero, NoDup;
    OwnerMarks(fs);
    RegionOwned(fs, 0);
    MapFirst(fs.vol, fs.live[0]);
    MapSize(fs.vol, fs.live[0]);
    OwnedParts(fs.live[0], fs.vol.disk);
    assert FileSectors(fs.live[0], fs.vol.disk)[0] == fs.live[0].direct[0];
  }

  /** do_format up to free_map_close. */
  method DoFormat(c: BufferCache.Cache, de: seq<Byte>) returns (ok: bool, mount: Mount, ghost pad: seq<bool>)
    requires c.Valid() && RootEntry(de)
    requires Formattable(c.Contents(), seq(32 * Bitmaps.ElemCnt(|c.disk|) - |c.disk|, _ => false))
    modifies c`disk, c.slots
    ensures ok && fresh(mount) && fresh(mount.table) && fresh(mount.table.store)
    ensures mount.table.store.mapFile != null && fresh(mount.table.store.mapFile)
    ensures mount.table.store.cache == c && fresh(mount.table.store.freeMap.words)
    ensures Formattable(old(c.Contents()), pad)
    ensures mount.Valid() && mount.fs == Formatted(old(c.Contents()), pad, de)
  {
    hide Mounted, Formattable, RootMade, Step, Enabled, Answer, Inv, Files;
    ghost var disk := c.Contents();
    var table;
    table, pad := CreateRoot(c);
    RootMadeInv(disk, pad);
    EntrySteps(RootMade(disk, pad), de);
    mount := new Mount(table, RootMade(disk, pad));
    var inode := mount.Open(1, true);
    var written := mount.Write(inode, de, 0);
    mount.Close(inode);
    ok := written == 20;
  }

  /** The free map, its file, and the root directory's inode. */
  method CreateRoot(c: BufferCache.Cache) returns (table: InodeTable, ghost pad: seq<bool>)
    requires c.Valid()
    requires Formattable(c.Contents(), seq(32 * Bitmaps.ElemCnt(|c.disk|) - |c.disk|, _ => false))
    modifies c`disk, c.slots
    ensures Formattable(old(c.Contents()), pad)
    ensures fresh(table) && fresh(table.inodes) && fresh(table.store)
    ensures fresh(table.store.freeMap) && fresh(table.store.freeMap.words)
    ensures table.store.cache == c && Mounted(table, RootMade(old(c.Contents()), pad))
    ensures table.store.mapFile != null && fresh(table.store.mapFile)
  {
    hide BufferCache.View, BufferCache.Coherent, MapOk, MapOwned, Bitmaps.AllBits, CreateInode, MapCreated, BlankVolume,
      Inv, Files, SectorSet, Distinct, Formattable, RootMade;
    ghost var disk := c.Contents();
    table, pad := CreateFreeMap(c);
    RootMadeInv(disk, pad);
    RootInode(disk, pad);
    var ok;
    ghost var d;
    ok, d := table.store.Create(1, ROOT_LENGTH, true, true);
  }
}
