/** inode.c and free-map.c as they run: in-memory inodes, the sector cache and
    the packed free map, updated in place.  Each operation is proved to compute
    the function on volumes that the theorems of the other modules are about. */
module InodeOps {
  import opened Basics
  import opened Blocks
  import opened FileData
  import opened Inodes
  import opened Volumes
  import opened Allocation
  import opened FileSystem
  import opened BufferCache
  import opened Bitmaps

  class Inode {
    const sector: Word
    var openCnt: nat
    var removed: bool
    var denyWriteCnt: nat
    var data: InodeDisk

    constructor (s: Word, d: InodeDisk)
      ensures sector == s && openCnt == 1 && !removed && denyWriteCnt == 0 && data == d
    {
      sector := s;
      openCnt := 1;
      removed := false;
      denyWriteCnt := 0;
      data := d;
    }
  }

  /** -1 as an unsigned sector number. */
  const NO_SECTOR: Word := 0xFFFF_FFFF

  /** The scan for one clear bit finds the first one. */
  lemma ScanIsFirstFree(bits: seq<bool>, r: Option<nat>)
    requires IsScan(bits, 0, 1, false, r)
    ensures FirstFree(bits, 0) == r
  {
    var f := FirstFree(bits, 0);
    FirstFreeLeast(bits, 0);
    if f.Some? { assert Run(bits, f.value, 1, false); }
    if r.Some? { assert !bits[r.value]; }
  }

  lemma {:induction false} FirstFreeLeast(used: seq<bool>, i: nat)
    ensures FirstFree(used, i).Some? ==> forall j :: i <= j < FirstFree(used, i).value ==> used[j]
    decreases |used| - i
  {
    if i < |used| && used[i] {
      FirstFreeLeast(used, i + 1);
    }
  }

  /** The file's sectors exist and its index sector is not one of its data sectors. */
  ghost predicate Located(disk: seq<Block>, d: InodeDisk) {
    && Small(d) && d.indirect < |disk| < 0x1_0000_0000
    && InRange(disk, FileSectors(d, disk))
    && (Sectors(d.length) > 123 ==> d.indirect !in FileSectors(d, disk))
  }

  lemma FileOkLocated(disk: seq<Block>, used: seq<bool>, d: InodeDisk)
    requires FileOk(disk, used, d) && 0 < |disk| < 0x1_0000_0000
    ensures Located(disk, d)
  {
    OwnedParts(d, disk);
    FileSectorsInRange(disk, used, d);
  }

  /** One turn of the write loop, in terms of the whole loop's function. */
  lemma WriteTurn(disk: seq<Block>, d: InodeDisk, fs: seq<Word>, buf: seq<Byte>, ofs: nat)
    requires Located(disk, d) && FileSectors(d, disk) == fs && ofs / 512 < |fs|
    requires Chunk(d.length - ofs, |buf|, ofs % 512) > 0
    ensures var c := Chunk(d.length - ofs, |buf|, ofs % 512);
            var disk' := WriteChunk(disk, fs, buf[..c], ofs / 512, ofs % 512);
            && Located(disk', d) && FileSectors(d, disk') == fs && |disk'| == |disk|
            && WriteFrom(disk, fs, d.length, buf, ofs / 512, ofs % 512)
               == WriteFrom(disk', fs, d.length, buf[c..], (ofs + c) / 512, (ofs + c) % 512)
  {
    hide FileSectors, Patch;
    var k, o := ofs / 512, ofs % 512;
    var c := Chunk(d.length - ofs, |buf|, o);
    assert ofs == 512 * k + o && d.length - (512 * k + o) == d.length - ofs;
    if o + c == 512 {
      assert (ofs + c) / 512 == k + 1 && (ofs + c) % 512 == 0;
    } else {
      assert (ofs + c) / 512 == k && (ofs + c) % 512 == o + c;
    }
    SameTable(d, disk, WriteChunk(disk, fs, buf[..c], k, o));
  }

  lemma LastTurn(disk: seq<Block>, fs: seq<Word>, len: nat, buf: seq<Byte>, ofs: nat)
    requires Chunk(len - ofs, |buf|, ofs % 512) <= 0
    ensures WriteFrom(disk, fs, len, buf, ofs / 512, ofs % 512) == disk && Moved(len, |buf|, ofs) == 0
  {
    assert ofs == 512 * (ofs / 512) + ofs % 512;
  }

  /** A turn that moves anything finds its sector in the table. */
  lemma TurnInTable(d: InodeDisk, disk: seq<Block>, size: int, ofs: nat)
    requires Small(d) && Chunk(d.length - ofs, size, ofs % 512) > 0
    ensures ofs / 512 < Sectors(d.length) && FileSectors(d, disk)[ofs / 512] == SectorOf(d, disk, ofs / 512)
    ensures Moved(d.length, size, ofs)
            == Chunk(d.length - ofs, size, ofs % 512)
               + Moved(d.length, size - Chunk(d.length - ofs, size, ofs % 512), ofs + Chunk(d.length - ofs, size, ofs % 512))
  {
  }

  class Store {
    const cache: Cache
    const freeMap: Bitmap
    var mapFile: Inode?

    ghost predicate Valid()
      reads this, cache, cache.slots, freeMap, freeMap.words, mapFile
    {
      && cache.Valid() && freeMap.Valid() && freeMap.bitCnt == |cache.disk|
      && cache.slots as object != freeMap.words
      && MapOk(Vol())
    }

    /** The volume the cache, the bitmap and the open map file stand for. */
    ghost function Vol(): Volume
      requires cache.Valid() && freeMap.Valid()
      reads this, cache, cache.slots, freeMap, freeMap.words, mapFile
    {
      Volume(cache.Contents(), freeMap.Bits(), freeMap.Pad(), if mapFile == null then None else Some(mapFile.data))
    }

    /** The store at boot, before the free-map file is opened. */
    constructor (c: Cache, m: Bitmap)
      requires c.Valid() && m.Valid() && 2 <= m.bitCnt == |c.disk| < 0x1_0000_0000 && m.Bits()[0]
      requires c.slots as object != m.words
      ensures cache == c && freeMap == m && mapFile == null && Valid()
    {
      hide View, ServedRead, ServedWrite, Coherent, AllBits, MapOk, ElemCnt;
      cache, freeMap, mapFile := c, m, null;
      new;
      WholeWords(m.bitCnt, m.words.Length, |m.Pad()|);
      BlankMapOk(Vol());
    }

    /** byte_to_sector; -1 as a sector number when POS is past the end of the file.  POS is -1
        only for an empty write at offset 0, which C's division sends to sector 0. */
    method ByteToSector(d: InodeDisk, pos: int) returns (r: Word)
      requires cache.Valid() && -1 <= pos && Small(d) && d.indirect < |cache.disk|
      requires 251 * 512 <= pos <= d.length ==>
                 d.dindirect < |cache.disk| && Decode(cache.Contents()[d.dindirect])[0] < |cache.disk|
      modifies cache`disk, cache.slots
      ensures cache.Valid() && cache.Contents() == old(cache.Contents())
      ensures r == if d.length < pos then NO_SECTOR else SectorOf(d, cache.Contents(), if pos < 0 then 0 else pos / 512)
    {
      hide Decode, View, ServedRead, ServedWrite;
      var index := if pos < 0 then 0 else pos / 512;
      if d.length < pos {
        r := NO_SECTOR;
      } else if index < 123 {
        r := d.direct[index];
      } else if index < 123 + 128 {
        var iid, _ := cache.Read(d.indirect);
        r := Decode(iid)[index - 123];
      } else {
        var iid, _ := cache.Read(d.dindirect);
        var diid, _ := cache.Read(Decode(iid)[(index - 123 - 128) / 128]);
        r := Decode(diid)[(index - 123 - 128) % 128];
      }
    }

    /** Stores PART in a sector: whole sectors directly, parts through a bounce buffer. */
    method WriteSector(sectorIdx: Word, sectorOfs: nat, part: seq<Byte>)
      requires cache.Valid() && sectorIdx < |cache.disk| && sectorOfs + |part| <= 512
      modifies cache`disk, cache.slots
      ensures cache.Valid()
      ensures cache.Contents() == Put(old(cache.Contents()), sectorIdx, Patch(Get(old(cache.Contents()), sectorIdx), sectorOfs, part))
    {
      hide View, ServedRead, ServedWrite;
      var now: int := *;
      if sectorOfs == 0 && |part| == 512 {
        PatchWhole(cache.Contents()[sectorIdx], part);
        var _ := cache.Write(sectorIdx, part, now);
      } else {
        var bounce, _ := cache.Read(sectorIdx);
        bounce := Patch(bounce, sectorOfs, part);
        var _ := cache.Write(sectorIdx, bounce, now);
      }
    }

    /** The copy loop of inode_write_at. */
    method CopyIn(d: InodeDisk, buf: seq<Byte>, offset: nat) returns (written: nat)
      requires cache.Valid() && Located(cache.Contents(), d) && offset + |buf| <= 251 * 512
      modifies cache`disk, cache.slots
      ensures cache.Valid()
      ensures cache.Contents()
              == Overwrite(old(cache.Contents()), FileSectors(d, old(cache.Contents())), d.length, buf, offset)
      ensures written == Moved(d.length, |buf|, offset)
    {
      hide View, ServedRead, ServedWrite, FileSectors, SectorOf, Patch, Put, Get, WriteFrom, Located, Coherent, Moved, Chunk;
      written := 0;
      var size, ofs := |buf|, offset;
      ghost var disk0 := cache.Contents();
      LocatedSmall(disk0, d);
      ghost var fs := FileSectors(d, disk0);
      assert buf[0..] == buf;
      while size > 0
        invariant written + size == |buf| && ofs == offset + written && size >= 0
        invariant cache.Valid() && Located(cache.Contents(), d) && FileSectors(d, cache.Contents()) == fs
        invariant |cache.Contents()| == |disk0|
        invariant WriteFrom(cache.Contents(), fs, d.length, buf[written..], ofs / 512, ofs % 512)
                  == Overwrite(disk0, fs, d.length, buf, offset)
        invariant written + Moved(d.length, size, ofs) == Moved(d.length, |buf|, offset)
        decreases size
      {
        ghost var rest := buf[written..];
        LocatedSmall(cache.Contents(), d);
        var sectorIdx := ByteToSector(d, ofs);
        var sectorOfs := ofs % 512;
        var chunk := Chunk(d.length - ofs, size, sectorOfs);
        if chunk <= 0 {
          LastTurn(cache.Contents(), fs, d.length, rest, ofs);
          return;
        }
        TurnInTable(d, cache.Contents(), size, ofs);
        WriteTurn(cache.Contents(), d, fs, rest, ofs);
        ChunkBounds(d.length - ofs, size, sectorOfs);
        var part := buf[written..written + chunk];
        assert rest[..chunk] == part && rest[chunk..] == buf[written + chunk..];
        LocatedAt(cache.Contents(), d, ofs / 512);
        WriteSector(sectorIdx, sectorOfs, part);
        size := size - chunk;
        ofs := ofs + chunk;
        written := written + chunk;
      }
      NothingLeft(cache.Contents(), fs, d.length, ofs);
      assert buf[written..] == [];
    }

    /** bitmap_write: the map to its own file, once that is open. */
    method WriteBackMap()
      requires Valid()
      modifies cache`disk, cache.slots
      ensures Valid() && Vol() == Persist(old(Vol()))
    {
      hide View, ServedRead, ServedWrite, MapOk, Image, Coherent, AllBits, Synced;
      PersistEffect(Vol());
      MapOkSane(Vol());
      if mapFile != null {
        MapLocated(Vol());
        var bytes := freeMap.Bytes();
        var n := CopyIn(mapFile.data, bytes, 0);
      }
    }

    /** free_map_allocate for one sector. */
    method FreeMapAllocate() returns (r: Option<Word>)
      requires Valid()
      modifies cache`disk, cache.slots, freeMap.words
      ensures Valid()
      ensures TakeSector(old(Vol())) == match r case None => None case Some(s) => Some((s, Vol()))
      ensures r.None? ==> Vol() == old(Vol())
    {
      hide View, ServedRead, ServedWrite, MapOk, Image, Coherent, AllBits, Persist, IsScan, FirstFree, SetRun;
      ghost var v := Vol();
      MapOkSane(v);
      var idx := freeMap.ScanAndFlip(0, 1, false);
      ScanIsFirstFree(v.used, idx);
      if idx.Some? {
        SetOne(v.used, idx.value, true);
        TakenMapOk(v, idx.value);
        WriteBackMap();
        r := Some(idx.value);
      } else {
        r := None;
      }
    }

    /** free_map_release for one sector, which must be marked. */
    method FreeMapRelease(s: Word)
      requires Valid() && 0 < s < freeMap.bitCnt && freeMap.Bits()[s] && s !in MapOwned(Vol())
      modifies cache`disk, cache.slots, freeMap.words
      ensures Valid() && Sane(old(Vol())) && Vol() == Release(old(Vol()), s)
    {
      hide View, ServedRead, ServedWrite, MapOk, Image, Coherent, AllBits, Persist, MapOwned;
      ghost var v := Vol();
      MapOkSane(v);
      freeMap.SetMultiple(s, 1, false);
      SetOne(v.used, s, false);
      ReleasedMapOk(v, s);
      WriteBackMap();
    }

    /** free_map_allocate followed by clearing the sector. */
    method TakeZeroSector() returns (r: Option<Word>)
      requires Valid()
      modifies cache`disk, cache.slots, freeMap.words
      ensures Valid() && Sane(old(Vol()))
      ensures TakeCleared(old(Vol())) == match r case None => None case Some(s) => Some((s, Vol()))
      ensures r.None? ==> Vol() == old(Vol())
      ensures MapOwned(Vol()) == MapOwned(old(Vol())) && |cache.disk| == |old(cache.disk)|
    {
      hide View, ServedRead, ServedWrite, MapOk, Image, Coherent, AllBits, TakeSector, MapOwned, Zeros;
      ghost var v := Vol();
      MapOkSane(v);
      r := FreeMapAllocate();
      if r.Some? {
        TakeSectorEffect(v);
        PutOutsideMap(Vol(), r.value, Zeros());
        var now: int := *;
        var _ := cache.Write(r.value, Zeros(), now);
      }
    }

    /** The loop of inode_indirect_alloc over the entries of the index sector. */
    method FillTable(iid: Table, n: nat) returns (ok: bool, table: Table)
      requires Valid() && n <= 128
      modifies cache`disk, cache.slots, freeMap.words
      ensures Valid() && Sane(old(Vol())) && MapOwned(Vol()) == MapOwned(old(Vol())) && |cache.disk| == |old(cache.disk)|
      ensures AllocTable(old(Vol()), iid, 0, n) == TableAlloc(ok, Vol(), table)
    {
      hide View, ServedRead, ServedWrite, MapOk, Image, Coherent, AllBits, TakeSector, TakeCleared, MapOwned;
      table := iid;
      MapOkSane(Vol());
      var i := 0;
      while i < n
        invariant 0 <= i <= n && Valid() && MapOwned(Vol()) == MapOwned(old(Vol())) && |cache.disk| == |old(cache.disk)|
        invariant Sane(Vol()) && AllocTable(Vol(), table, i, n) == AllocTable(old(Vol()), iid, 0, n)
      {
        if table[i] == 0 {
          var s := TakeZeroSector();
          if s.None? {
            return false, table;
          }
          table := table[i := s.value];
          MapOkSane(Vol());
        }
        i := i + 1;
      }
      ok := true;
    }

    /** inode_indirect_alloc, level 0. */
    method IndirectAlloc(inode: Inode, n: nat) returns (ok: bool)
      requires Valid() && inode != mapFile && n <= 128
      requires inode.data.indirect != 0 ==> inode.data.indirect < |cache.disk| && inode.data.indirect !in MapOwned(Vol())
      modifies inode`data, cache`disk, cache.slots, freeMap.words
      ensures Valid() && Sane(old(Vol()))
      ensures AllocIndirect(old(Vol()), old(inode.data), n) == InodeAlloc(ok, Vol(), inode.data)
      ensures MapOwned(Vol()) == MapOwned(old(Vol())) && |cache.disk| == |old(cache.disk)|
    {
      hide View, ServedRead, ServedWrite, MapOk, Image, Coherent, AllBits, TakeSector, TakeCleared, MapOwned, Decode,
        Encode, NoSectors, Get, AllocTable;
      ghost var v0 := Vol();
      MapOkSane(v0);
      var iid: Table := NoSectors();
      if inode.data.indirect != 0 {
        var b, _ := cache.Read(inode.data.indirect);
        GetAt(v0.disk, inode.data.indirect);
        iid := Decode(b);
      } else {
        var s := FreeMapAllocate();
        if s.None? {
          return false;
        }
        TakeSectorEffect(v0);
        inode.data := inode.data.(indirect := s.value);
      }
      var filled, table := FillTable(iid, n);
      if !filled {
        return false;
      }
      PutOutsideMap(Vol(), inode.data.indirect, Encode(table));
      var now: int := *;
      var _ := cache.Write(inode.data.indirect, Encode(table), now);
      ok := true;
    }

    /** inode_disk_allocate for up to 123 + 128 sectors. */
    method DiskAllocate(inode: Inode, sectors: nat) returns (ok: bool)
      requires Valid() && inode != mapFile && sectors <= 251
      requires inode.data.indirect != 0 ==> inode.data.indirect < |cache.disk| && inode.data.indirect !in MapOwned(Vol())
      modifies inode`data, cache`disk, cache.slots, freeMap.words
      ensures Valid() && Sane(old(Vol()))
      ensures AllocInode(old(Vol()), old(inode.data), sectors) == InodeAlloc(ok, Vol(), inode.data)
      ensures MapOwned(Vol()) == MapOwned(old(Vol())) && |cache.disk| == |old(cache.disk)|
    {
      hide View, ServedRead, ServedWrite, MapOk, Image, Coherent, AllBits, TakeSector, TakeCleared, MapOwned, AllocIndirect;
      ghost var v0, d0 := Vol(), inode.data;
      MapOkSane(v0);
      var di := if sectors > 123 then 123 else sectors;
      var i := 0;
      while i < di
        invariant 0 <= i <= di && Valid() && MapOwned(Vol()) == MapOwned(v0) && |cache.disk| == |v0.disk|
        invariant inode.data == d0.(direct := inode.data.direct)
        invariant Sane(Vol()) && AllocTable(Vol(), inode.data.direct, i, di) == AllocTable(v0, d0.direct, 0, di)
      {
        if inode.data.direct[i] == 0 {
          var s := TakeZeroSector();
          if s.None? {
            return false;
          }
          inode.data := inode.data.(direct := inode.data.direct[i := s.value]);
          MapOkSane(Vol());
        }
        i := i + 1;
      }
      if sectors <= 123 {
        return true;
      }
      ok := IndirectAlloc(inode, sectors - 123);
    }

    /** inode_read_at: the bytes from OFFSET on, cut at the end of the file. */
    method ReadAt(inode: Inode, size: int, offset: nat) returns (buffer: seq<Byte>)
      requires cache.Valid() && Located(cache.Contents(), inode.data)
      requires inode.data.length == 251 * 512 ==>
                 && inode.data.dindirect < |cache.disk|
                 && Decode(cache.Contents()[inode.data.dindirect])[0] < |cache.disk|
      modifies cache`disk, cache.slots
      ensures cache.Valid() && cache.Contents() == old(cache.Contents())
      ensures |buffer| == Moved(inode.data.length, size, offset)
      ensures buffer != [] ==>
                && offset + |buffer| <= inode.data.length
                && buffer == Contents(inode.data, cache.Contents())[offset..offset + |buffer|]
    {
      hide View, ServedRead, ServedWrite, FileSectors, SectorOf, Get, Located, Coherent, Moved, Chunk, Inodes.Contents, Decode;
      buffer := [];
      var d := inode.data;
      var left, ofs := size, offset;
      ghost var disk0 := cache.Contents();
      LocatedSmall(disk0, d);
      ghost var c := Inodes.Contents(d, disk0);
      while left > 0
        invariant cache.Valid() && cache.Contents() == disk0
        invariant ofs == offset + |buffer| && |buffer| + Moved(d.length, left, ofs) == Moved(d.length, size, offset)
        invariant buffer != [] ==> ofs <= d.length && buffer == c[offset..ofs]
        decreases left
      {
        var sectorIdx := ByteToSector(d, ofs);
        var sectorOfs := ofs % 512;
        var chunk := Chunk(d.length - ofs, left, sectorOfs);
        if chunk <= 0 {
          NothingMoved(d.length, left, ofs);
          return;
        }
        ChunkBounds(d.length - ofs, left, sectorOfs);
        TurnInTable(d, disk0, left, ofs);
        LocatedAt(disk0, d, ofs / 512);
        var bounce, _ := cache.Read(sectorIdx);
        ChunkBytes(disk0, d, ofs, chunk);
        GetAt(disk0, sectorIdx);
        buffer := buffer + bounce[sectorOfs..sectorOfs + chunk];
        left := left - chunk;
        ofs := ofs + chunk;
      }
      NothingMoved(d.length, left, ofs);
    }

    /** inode_write_at.  Returns how many bytes were written. */
    method WriteAt(inode: Inode, buf: seq<Byte>, offset: nat) returns (written: nat)
      requires Valid() && inode != mapFile && Writable(Vol(), inode.sector, inode.data)
      requires inode.denyWriteCnt == 0 ==> offset + |buf| <= 251 * 512
      requires Decode(Get(Vol().disk, 0))[0] < |Vol().disk|
      modifies inode`data, cache`disk, cache.slots, freeMap.words
      ensures Valid() && Sane(old(Vol())) && Small(old(inode.data))
      ensures if inode.denyWriteCnt > 0 then written == 0 && Vol() == old(Vol()) && inode.data == old(inode.data)
              else WriteFile(old(Vol()), inode.sector, old(inode.data), buf, offset)
                   == WriteResult(Vol(), inode.data, written)
    {
      hide View, ServedRead, ServedWrite, MapOk, Image, Coherent, AllBits, MapOwned, FileOk, Owned, EncodeInode, AllocInode,
        Overwrite, Located, FileSectors, SectorOf, CountFree, Get, Effect;
      ghost var v0, d0 := Vol(), inode.data;
      WritableFacts(v0, inode.sector, d0);
      if inode.denyWriteCnt > 0 {
        return 0;
      }
      var last := ByteToSector(inode.data, offset + |buf| - 1);
      assert Vol() == v0;
      LastSector(v0, inode.sector, d0, offset + |buf| - 1);
      if last == NO_SECTOR {
        var ok := DiskAllocate(inode, Sectors(offset + |buf|));
        if !ok {
          return 0;
        }
        GrownWritable(v0, inode.sector, d0, offset + |buf|);
        inode.data := inode.data.(length := offset + |buf|);
        PutOutsideMap(Vol(), inode.sector, EncodeInode(inode.data));
        var now: int := *;
        var _ := cache.Write(inode.sector, EncodeInode(inode.data), now);
      }
      CopyKeepsMap(Vol(), inode.data, buf, offset);
      written := CopyIn(inode.data, buf, offset);
    }

    /** inode_create at SECTOR, which the caller has taken from the free map; MEMORY says
        whether there is room for the inode in memory. */
    method Create(sector: Word, length: Length, directory: bool, memory: bool) returns (ok: bool, ghost data: InodeDisk)
      requires Valid() && sector < |cache.disk| && sector !in MapOwned(Vol()) && length <= 251 * 512
      modifies cache`disk, cache.slots, freeMap.words
      ensures Valid() && Sane(old(Vol()))
      ensures if memory then CreateInode(old(Vol()), sector, length, directory) == CreateResult(ok, Vol(), sector, data)
              else !ok && Vol() == old(Vol())
      ensures MapOwned(Vol()) == MapOwned(old(Vol())) && |cache.disk| == |old(cache.disk)|
    {
      hide View, ServedRead, ServedWrite, MapOk, Image, Coherent, AllBits, MapOwned, EncodeInode, AllocInode, NewInode;
      ghost var v0 := Vol();
      MapOkSane(v0);
      NewInodeIndirect(length, directory);
      if !memory {
        return false, NewInode(length, directory);
      }
      var inode := new Inode(sector, NewInode(length, directory));
      ok := DiskAllocate(inode, Sectors(length));
      data := inode.data;
      if ok {
        PutOutsideMap(Vol(), sector, EncodeInode(inode.data));
        var now: int := *;
        var _ := cache.Write(sector, EncodeInode(inode.data), now);
      }
    }

    /** inode_disk_free, its two loops: the direct table, then the index sector's. */
    method DiskFree(d: InodeDisk)
      requires Valid() && Releasable(Vol(), d)
      modifies cache`disk, cache.slots, freeMap.words
      ensures Valid() && Sane(old(Vol())) && Small(d)
      ensures NoDup(FileSectors(d, old(Vol()).disk)) && Marked(old(Vol()).used, FileSectors(d, old(Vol()).disk))
      ensures Vol() == ReleaseAll(old(Vol()), FileSectors(d, old(Vol()).disk))
    {
      hide View, ServedRead, ServedWrite, MapOk, Image, Coherent, AllBits, MapOwned, FreeLoop, NoDup, Marked, Release,
        Decode, Get, Disjoint;
      ghost var v0 := Vol();
      MapOkSane(v0);
      var sectors := Sectors(d.length);
      ghost var xs := FileSectors(d, v0.disk);
      FreeStart(v0, xs);
      var di := if sectors > 123 then 123 else sectors;
      var i := 0;
      while i < di
        invariant 0 <= i <= di && Valid() && FreeLoop(v0, Vol(), xs, i)
      {
        FreeTurn(v0, Vol(), xs, i);
        FreeMapRelease(d.direct[i]);
        i := i + 1;
      }
      if sectors <= 123 {
        FreeEnd(v0, Vol(), xs);
        return;
      }
      FreeIndex(v0, Vol(), d, xs, i);
      FreeSize(v0, Vol(), xs, i);
      ghost var v1 := Vol();
      var b, _ := cache.Read(d.indirect);
      var iid := Decode(b);
      i := 0;
      while i < sectors - 123
        invariant 0 <= i <= sectors - 123 && Valid() && FreeLoop(v0, Vol(), xs, 123 + i)
      {
        FreeTurn(v0, Vol(), xs, 123 + i);
        assert xs[123 + i] == iid[i];
        FreeMapRelease(iid[i]);
        i := i + 1;
      }
      FreeEnd(v0, Vol(), xs);
    }

    /** inode_close when it was the last opener of a removed file. */
    method ReleaseInode(inode: Inode)
      requires Valid() && Small(inode.data)
      requires var xs := Released(inode.sector, inode.data, Vol().disk);
               NoDup(xs) && Marked(Vol().used, xs) && 0 !in xs && Disjoint(xs, MapOwned(Vol()))
      requires Sectors(inode.data.length) > 123 ==>
                 inode.data.indirect < |cache.disk| && inode.data.indirect !in MapOwned(Vol())
      modifies cache`disk, cache.slots, freeMap.words
      ensures Valid() && Sane(old(Vol()))
      ensures Vol() == ReleaseAll(old(Vol()), Released(inode.sector, inode.data, old(Vol()).disk))
    {
      hide View, ServedRead, ServedWrite, MapOk, Image, Coherent, AllBits, MapOwned, FileSectors, Release, ReleaseAll;
      ghost var v0 := Vol();
      MapOkSane(v0);
      ReleaseFirst(v0, inode.sector, inode.data);
      FreeMapRelease(inode.sector);
      DiskFree(inode.data);
    }
  }

  /** Releasing the inode's own sector first leaves the rest releasable. */
  lemma ReleaseFirst(v: Volume, s: Word, d: InodeDisk)
    requires MapOk(v) && Small(d)
    requires var xs := Released(s, d, v.disk);
             NoDup(xs) && Marked(v.used, xs) && 0 !in xs && Disjoint(xs, MapOwned(v))
    requires Sectors(d.length) > 123 ==> d.indirect < |v.disk| && d.indirect !in MapOwned(v)
    ensures 0 < s < |v.used| && v.used[s] && s !in MapOwned(v)
    ensures var v' := Release(v, s);
            && Releasable(v', d)
            && FileSectors(d, v'.disk) == FileSectors(d, v.disk)
            && ReleaseAll(v, Released(s, d, v.disk)) == ReleaseAll(v', FileSectors(d, v'.disk))
  {
    hide MapOk, MapOwned, Release, FileSectors, Get, Synced;
    MapOkSane(v);
    var fs, xs := FileSectors(d, v.disk), Released(s, d, v.disk);
    assert xs[0] == s && xs[1..] == fs && s in xs;
    ReleaseEffect(v, s);
    var v' := Release(v, s);
    SameTable(d, v.disk, v'.disk);
    assert forall i :: 0 <= i < |fs| ==> fs[i] == xs[i + 1];
    assert forall x :: x in fs ==> x in xs && x != s;
  }

  lemma NewInodeIndirect(length: Length, directory: bool)
    ensures NewInode(length, directory).indirect == 0
  {
  }

  /** What inode_disk_free relies on: every data sector is marked, listed once
      and neither sector 0 nor the map file's. */
  ghost predicate Releasable(v: Volume, d: InodeDisk)
    requires Sane(v)
  {
    && Small(d)
    && NoDup(FileSectors(d, v.disk)) && Marked(v.used, FileSectors(d, v.disk)) && 0 !in FileSectors(d, v.disk)
    && Disjoint(FileSectors(d, v.disk), MapOwned(v))
    && (Sectors(d.length) > 123 ==> d.indirect < |v.disk| && d.indirect !in MapOwned(v))
  }

  /** After I turns of releasing XS: V has still to release XS[I..]. */
  ghost predicate FreeLoop(v0: Volume, v: Volume, xs: seq<Word>, i: nat) {
    && i <= |xs| && MapOk(v0) && MapOk(v) && |v.disk| == |v0.disk|
    && NoDup(xs) && Marked(v0.used, xs) && 0 !in xs && Disjoint(xs, MapOwned(v0))
    && MapOwned(v) == MapOwned(v0)
    && NoDup(xs[i..]) && Marked(v.used, xs[i..])
    && ReleaseAll(v, xs[i..]) == ReleaseAll(v0, xs)
    && (forall x :: x !in MapOwned(v0) ==> Get(v.disk, x) == Get(v0.disk, x))
  }

  lemma FreeStart(v: Volume, xs: seq<Word>)
    requires MapOk(v) && NoDup(xs) && Marked(v.used, xs) && 0 !in xs && Disjoint(xs, MapOwned(v))
    ensures FreeLoop(v, v, xs, 0)
  {
    assert xs[0..] == xs;
  }

  lemma FreeTurn(v0: Volume, v: Volume, xs: seq<Word>, i: nat)
    requires FreeLoop(v0, v, xs, i) && i < |xs|
    ensures Sane(v) && 0 < xs[i] < |v.used| && v.used[xs[i]] && xs[i] !in MapOwned(v)
    ensures FreeLoop(v0, Release(v, xs[i]), xs, i + 1)
  {
    hide MapOk, MapOwned, Release, Get, Synced;
    var s, rest := xs[i], xs[i..];
    assert rest[0] == s && rest[1..] == xs[i + 1..] && rest == [s] + rest[1..];
    assert s in rest && s in xs;
    MapOkSane(v);
    ReleaseEffect(v, s);
    assert forall x :: x in rest[1..] ==> x in rest && x != s;
  }

  lemma FreeEnd(v0: Volume, v: Volume, xs: seq<Word>)
    requires FreeLoop(v0, v, xs, |xs|)
    ensures Sane(v0) && v == ReleaseAll(v0, xs)
  {
    assert xs[|xs|..] == [];
  }

  lemma FreeSize(v0: Volume, v: Volume, xs: seq<Word>, i: nat)
    requires FreeLoop(v0, v, xs, i)
    ensures |v.disk| == |v0.disk|
  {
  }

  lemma FreeIndex(v0: Volume, v: Volume, d: InodeDisk, xs: seq<Word>, i: nat)
    requires FreeLoop(v0, v, xs, i) && Small(d) && xs == FileSectors(d, v0.disk)
    requires Sectors(d.length) > 123 && d.indirect < |v0.disk| && d.indirect !in MapOwned(v0)
    ensures forall k :: 123 <= k < |xs| ==> xs[k] == Decode(v.disk[d.indirect])[k - 123]
  {
    hide MapOk, MapOwned, ReleaseAll, NoDup, Decode;
    GetAt(v0.disk, d.indirect);
    GetAt(v.disk, d.indirect);
    assert Get(v.disk, d.indirect) == Get(v0.disk, d.indirect);
    forall k | 123 <= k < |xs| ensures xs[k] == Decode(v.disk[d.indirect])[k - 123] {
      assert xs[k] == SectorOf(d, v0.disk, k);
    }
  }

  /** Writing to a file's own sectors leaves the map file alone. */
  lemma CopyKeepsMap(v: Volume, d: InodeDisk, buf: seq<Byte>, off: nat)
    requires MapOk(v) && Small(d) && Disjoint(FileSectors(d, v.disk), MapOwned(v))
    ensures MapOk(v.(disk := Overwrite(v.disk, FileSectors(d, v.disk), d.length, buf, off)))
  {
    hide MapOk, MapOwned, FileSectors, Overwrite, Get, Synced;
    MapOkSane(v);
    var fs := FileSectors(d, v.disk);
    forall x | x in MapOwned(v) ensures Get(Overwrite(v.disk, fs, d.length, buf, off), x) == Get(v.disk, x) {
      OverwriteFrame(v.disk, fs, d.length, buf, off, x);
    }
    DiskOutsideMap(v, Overwrite(v.disk, fs, d.length, buf, off));
  }

  lemma WritableFacts(v: Volume, s: Word, d: InodeDisk)
    requires Writable(v, s, d)
    ensures Sane(v) && Small(d) && Located(v.disk, d) && s !in MapOwned(v) && s < |v.disk|
    ensures d.indirect != 0 ==> d.indirect < |v.disk| && d.indirect !in MapOwned(v)
    ensures Disjoint(FileSectors(d, v.disk), MapOwned(v))
  {
    hide MapOwned, FileSectors, Owned;
    FileOkLocated(v.disk, v.used, d);
    OwnedMembers(d, v.disk);
  }

  /** byte_to_sector answers -1 exactly when the file must grow: every sector number it finds in
      a table is that of a sector on the disk, even for the byte just past a file that fills its
      last sector, where it may look for an index in sector 0, the free map's inode. */
  lemma LastSector(v: Volume, s: Word, d: InodeDisk, pos: int)
    requires Writable(v, s, d) && -1 <= pos < 251 * 512 && Decode(Get(v.disk, 0))[0] < |v.disk|
    ensures pos <= d.length ==> SectorOf(d, v.disk, if pos < 0 then 0 else pos / 512) < |v.disk| <= NO_SECTOR
  {
    hide MapOwned, Owned, NoDup, SlackZero, Decode, Get;
    OwnedParts(d, v.disk);
    MapOkSane(v);
    var i := if pos < 0 then 0 else pos / 512;
    if i < Sectors(d.length) {
      assert FileSectors(d, v.disk)[i] == SectorOf(d, v.disk, i);
    }
  }

  lemma GrownWritable(v: Volume, s: Word, d: InodeDisk, length: Length)
    requires Writable(v, s, d) && d.length <= length <= 251 * 512
    requires Sane(v) && AllocInode(v, d, Sectors(length)).ok
    ensures var r := AllocInode(v, d, Sectors(length));
            var d' := r.inode.(length := length);
            var disk' := Put(r.vol.disk, s, EncodeInode(d'));
            && Located(disk', d') && s !in MapOwned(r.vol) && |disk'| == |v.disk|
            && MapOk(r.vol.(disk := disk')) && Disjoint(FileSectors(d', disk'), MapOwned(r.vol.(disk := disk')))
  {
    hide AllocInode, MapOk, MapOwned, FileOk, Owned, FileSectors, EncodeInode, Get, Put, CountFree, Contents, Located,
      NoDup, Synced;
    SectorsMonotonic(d.length, length);
    AllocInodeSucceeds(v, d, Sectors(length));
    var got := GrowEffect(v, s, d, length);
    var r := AllocInode(v, d, Sectors(length));
    var d' := r.inode.(length := length);
    var v' := r.vol.(disk := Put(r.vol.disk, s, EncodeInode(d')));
    MapOkSane(v');
    FileOkLocated(v'.disk, v'.used, d');
    FileOkSmall(v'.disk, v'.used, d');
    OwnedMembers(d', v'.disk);
    var g := AllocInodeGrows(v, d, length);
    EffectMapOwned(v, r.vol, g, Owned(d, v.disk));
  }

  lemma EffectMapOwned(v: Volume, v': Volume, got: seq<Word>, touched: seq<Word>)
    requires Effect(v, v', got, touched)
    ensures MapOk(v') && MapOwned(v') == MapOwned(v) && |v'.disk| == |v.disk|
  {
  }

  lemma NothingMoved(len: nat, size: int, ofs: nat)
    requires Chunk(len - ofs, size, ofs % 512) <= 0 || size <= 0
    ensures Moved(len, size, ofs) == 0
  {
  }

  /** A chunk of one sector is a chunk of the file. */
  lemma ChunkBytes(disk: seq<Block>, d: InodeDisk, ofs: nat, n: nat)
    requires Small(d) && ofs + n <= d.length && ofs % 512 + n <= 512 && ofs / 512 < Sectors(d.length)
    ensures Get(disk, FileSectors(d, disk)[ofs / 512])[ofs % 512..ofs % 512 + n] == Contents(d, disk)[ofs..ofs + n]
  {
    hide FileSectors, Get;
    var a := Get(disk, FileSectors(d, disk)[ofs / 512])[ofs % 512..ofs % 512 + n];
    var b := Contents(d, disk)[ofs..ofs + n];
    forall i | 0 <= i < n ensures a[i] == b[i] {
      assert b[i] == ByteAt(disk, FileSectors(d, disk), ofs + i);
      assert (ofs + i) / 512 == ofs / 512 && (ofs + i) % 512 == ofs % 512 + i;
    }
  }

  /** free_map_init. */
  method FreeMapInit(n: nat) returns (m: Bitmap)
    requires n >= 2
    ensures fresh(m) && fresh(m.words) && m.Valid() && m.bitCnt == n
    ensures forall i :: 0 <= i < n ==> (m.Bits()[i] <==> i < 2)
  {
    m := new Bitmap(n);
    m.BitSet(0, true);
    m.BitSet(1, true);
  }

  lemma WholeWords(n: nat, words: nat, pad: nat)
    requires pad == 32 * words - n
    ensures (n + pad) % 8 == 0
  {
  }

  lemma BlankMapOk(v: Volume)
    requires 2 <= |v.used| == |v.disk| < 0x1_0000_0000 && v.used[0] && v.mapFile.None? && (|v.used| + |v.pad|) % 8 == 0
    ensures MapOk(v)
  {
  }

  lemma GetAt(disk: seq<Block>, s: nat)
    requires s < |disk|
    ensures Get(disk, s) == disk[s]
  {
  }

  lemma SetOne(bits: seq<bool>, i: nat, value: bool)
    requires i < |bits|
    ensures SetRun(bits, i, 1, value) == bits[i := value]
  {
  }

  lemma TakenMapOk(v: Volume, s: nat)
    requires MapOk(v) && FirstFree(v.used, 0) == Some(s)
    ensures s < |v.used| && MapOk(v.(used := v.used[s := true]))
  {
    if v.mapFile.Some? {
      FileFrame(v.disk, v.used, v.disk, v.used[s := true], v.mapFile.value);
    }
  }

  lemma ReleasedMapOk(v: Volume, s: nat)
    requires MapOk(v) && 0 < s < |v.used| && s !in MapOwned(v)
    ensures MapOk(v.(used := v.used[s := false]))
  {
    if v.mapFile.Some? {
      FileFrame(v.disk, v.used, v.disk, v.used[s := false], v.mapFile.value);
    }
  }

  lemma MapLocated(v: Volume)
    requires MapOk(v) && v.mapFile.Some?
    ensures Located(v.disk, v.mapFile.value) && |MapImage(v)| == v.mapFile.value.length <= 251 * 512
  {
    FileOkLocated(v.disk, v.used, v.mapFile.value);
  }

  lemma LocatedSmall(disk: seq<Block>, d: InodeDisk)
    requires Located(disk, d)
    ensures Small(d) && d.indirect < |disk|
  {
  }

  lemma LocatedAt(disk: seq<Block>, d: InodeDisk, k: nat)
    requires Located(disk, d) && k < Sectors(d.length)
    ensures Small(d) && FileSectors(d, disk)[k] < |disk|
  {
  }

  lemma ChunkBounds(left: int, size: int, o: nat)
    requires o < 512
    ensures Chunk(left, size, o) <= size && Chunk(left, size, o) <= left && o + Chunk(left, size, o) <= 512
  {
  }

  lemma NothingLeft(disk: seq<Block>, fs: seq<Word>, len: nat, ofs: nat)
    ensures WriteFrom(disk, fs, len, [], ofs / 512, ofs % 512) == disk && Moved(len, 0, ofs) == 0
  {
  }

  lemma PatchWhole(b: Block, part: seq<Byte>)
    requires |part| == 512
    ensures Patch(b, 0, part) == part
  {
  }
}
