/** The file system as a state machine over volumes: creating, opening,
    writing, removing and closing files, in any order and number.  The
    invariant ties every marked sector to the one file that owns it. */
module FileSystem {
  import opened Basics
  import opened Blocks
  import opened FileData
  import opened Inodes
  import opened Volumes
  import opened Allocation

  /** Who a marked sector belongs to.  Lost sectors are the index sectors of
      removed files, which inode_indirect_free never releases. */
  datatype Owner = File(inode: Word) | Lost

  /** The in-memory part of an open inode. */
  datatype OpenInode = OpenInode(openCnt: nat, removed: bool, denyWriteCnt: nat)

  /** LIVE maps inode sectors to inodes; OWNER records who holds each marked sector. */
  datatype FileSys = FileSys(vol: Volume, live: map<Word, InodeDisk>, open: map<Word, OpenInode>, owner: map<Word, Owner>)

  /** All sectors of file S, its inode first. */
  ghost function Region(fs: FileSys, s: Word): seq<Word> {
    [s] + if s in fs.live && Small(fs.live[s]) then Owned(fs.live[s], fs.vol.disk) else []
  }

  ghost predicate FileInv(fs: FileSys, s: Word)
    requires s in fs.live
  {
    && s < |fs.vol.disk|
    && Get(fs.vol.disk, s) == EncodeInode(fs.live[s])
    && FileOk(fs.vol.disk, fs.vol.used, fs.live[s])
    && s !in Owned(fs.live[s], fs.vol.disk)
    && (forall x :: x in Region(fs, s) ==> x in fs.owner && fs.owner[x] == File(s))
  }

  /** Exactly the owned and lost sectors are marked. */
  ghost predicate Accounted(fs: FileSys) {
    && (forall x :: x in fs.owner ==> x < |fs.vol.used|)
    && (forall x :: 0 <= x < |fs.vol.used| ==> (fs.vol.used[x] <==> x in fs.owner))
    && (forall x :: x in fs.owner && fs.owner[x].File? ==>
          fs.owner[x].inode in fs.live && x in Region(fs, fs.owner[x].inode))
  }

  ghost predicate Inv(fs: FileSys) {
    && MapOk(fs.vol) && Synced(fs.vol)
    && 0 in fs.live && fs.vol.mapFile == Some(fs.live[0])
    && (forall s :: s in fs.live ==> FileInv(fs, s))
    && Accounted(fs)
    && fs.open.Keys <= fs.live.Keys
    && (forall s :: s in fs.open ==> fs.open[s].openCnt > 0)
    && 0 in fs.open && !fs.open[0].removed
  }

  /** What readers see: every file but the free map's own. */
  ghost function Files(fs: FileSys): map<Word, seq<Byte>>
    requires Inv(fs)
  {
    map s | s in fs.live && s != 0 :: Contents(fs.live[s], fs.vol.disk)
  }

  datatype WriteResult = WriteResult(vol: Volume, inode: InodeDisk, written: nat)

  /** Whether inode_write_at finds the last byte to be past the end: it compares
      the position of that byte with the length by <, not <=. */
  predicate Grows(d: InodeDisk, size: nat, off: nat) { d.length < off + size - 1 }

  /** inode_write_at on file S with inode D, writes not denied. */
  function WriteFile(v: Volume, s: Word, d: InodeDisk, buf: seq<Byte>, off: nat): WriteResult
    requires Sane(v) && Small(d) && off + |buf| <= 251 * 512
  {
    if Grows(d, |buf|, off) then
      var r := AllocInode(v, d, Sectors(off + |buf|));
      if !r.ok then WriteResult(r.vol, r.inode, 0)
      else
        var d' := r.inode.(length := off + |buf|);
        var disk := Put(r.vol.disk, s, EncodeInode(d'));
        WriteResult(r.vol.(disk := Overwrite(disk, FileSectors(d', disk), d'.length, buf, off)), d', Moved(d'.length, |buf|, off))
    else
      WriteResult(v.(disk := Overwrite(v.disk, FileSectors(d, v.disk), d.length, buf, off)), d, Moved(d.length, |buf|, off))
  }

  /** The contents after the write, as the code computes them. */
  function Written(contents: seq<Byte>, buf: seq<Byte>, off: nat): seq<Byte> {
    var base := if |contents| < off + |buf| - 1 then ZeroExtend(contents, off + |buf|) else contents;
    if off <= |base| then Overlay(base, buf[..Moved(|base|, |buf|, off)], off) else base
  }

  /** The contents after the write, as a reader expects them. */
  function Expected(contents: seq<Byte>, buf: seq<Byte>, off: nat): seq<Byte> {
    if buf == [] then contents else Overlay(ZeroExtend(contents, off + |buf|), buf, off)
  }

  /** That is, byte for byte: the buffer where it lies, the old bytes around it, zeros in a gap. */
  lemma ExpectedBytes(contents: seq<Byte>, buf: seq<Byte>, off: nat)
    requires buf != []
    ensures var r := Expected(contents, buf, off);
            && |r| == (if |contents| < off + |buf| then off + |buf| else |contents|)
            && forall i :: 0 <= i < |r| ==>
                 r[i] == if off <= i < off + |buf| then buf[i - off] else if i < |contents| then contents[i] else 0
  {
  }

  /** The two agree exactly when the write does not end one byte past the end
      (and, for an empty write, does not lie further out). */
  lemma WrittenAsExpected(contents: seq<Byte>, buf: seq<Byte>, off: nat)
    ensures Written(contents, buf, off) == Expected(contents, buf, off)
            <==> if buf == [] then off <= |contents| + 1 else off + |buf| != |contents| + 1
  {
    if buf == [] {
      if off <= |contents| { assert Overlay(contents, [], off) == contents; }
    } else if off + |buf| != |contents| + 1 {
      var base := ZeroExtend(contents, off + |buf|);
      assert buf[..Moved(|base|, |buf|, off)] == buf;
    }
  }

  /** Overwriting a file's bytes is an effect on its own sectors. */
  lemma EffectOverwrite(v: Volume, v': Volume, got: seq<Word>, touched: seq<Word>, d: InodeDisk, buf: seq<Byte>, off: nat)
    requires Effect(v, v', got, touched) && FileOk(v'.disk, v'.used, d)
    requires forall x :: x in Owned(d, v'.disk) ==> (x in got || x in touched) && x !in MapOwned(v)
    ensures Effect(v, v'.(disk := Overwrite(v'.disk, FileSectors(d, v'.disk), d.length, buf, off)), got, touched)
  {
    hide MapOk, MapOwned, Synced, NoDup, Overwrite, FileSectors, Owned, FileOk, Get;
    FileOkSmall(v'.disk, v'.used, d);
    var fs := FileSectors(d, v'.disk);
    var disk' := Overwrite(v'.disk, fs, d.length, buf, off);
    OwnedParts(d, v'.disk);
    forall x | x !in fs ensures Get(disk', x) == Get(v'.disk, x) {
      OverwriteFrame(v'.disk, fs, d.length, buf, off, x);
    }
    forall x | x in fs ensures x in Owned(d, v'.disk) {
      var i :| 0 <= i < |fs| && fs[i] == x;
    }
    DiskOutsideMap(v', disk');
  }

  /** What the volume must give for a write to file S with inode D to be served. */
  ghost predicate Writable(v: Volume, s: Word, d: InodeDisk) {
    && MapOk(v) && FileOk(v.disk, v.used, d)
    && Disjoint(Owned(d, v.disk), MapOwned(v))
    && s < |v.used| && v.used[s] && s !in Owned(d, v.disk) && s !in MapOwned(v)
  }

  /** Enough sectors are free for the file to grow to the end of the write. */
  predicate Fits(v: Volume, d: InodeDisk, size: nat, off: nat) {
    && off + size <= 251 * 512
    && (Grows(d, size, off) ==> Needed(Sectors(d.length), Sectors(off + size)) <= CountFree(v.used))
  }

  /** The growing half of inode_write_at: allocate, set the length, store the inode. */
  lemma GrowEffect(v: Volume, s: Word, d: InodeDisk, length: Length) returns (got: seq<Word>)
    requires Writable(v, s, d) && d.length <= length <= 251 * 512
    requires Needed(Sectors(d.length), Sectors(length)) <= CountFree(v.used)
    ensures AllocInode(v, d, Sectors(length)).ok
    ensures var r := AllocInode(v, d, Sectors(length));
            var d' := r.inode.(length := length);
            var v' := r.vol.(disk := Put(r.vol.disk, s, EncodeInode(d')));
            && Effect(v, v', got, [s] + Owned(d, v.disk))
            && FileOk(v'.disk, v'.used, d')
            && Owned(d', v'.disk) == Owned(d, v.disk) + got
            && s !in Owned(d', v'.disk)
            && Get(v'.disk, s) == EncodeInode(d')
            && Contents(d', v'.disk) == ZeroExtend(Contents(d, v.disk), length)
  {
    hide MapOk, MapOwned, Synced, NoDup, Owned, FileOk, AllocInode, EncodeInode, CountFree, ZeroExtend, Contents;
    MapOkSane(v);
    SectorsMonotonic(d.length, length);
    AllocInodeSucceeds(v, d, Sectors(length));
    got := AllocInodeGrows(v, d, length);
    var r := AllocInode(v, d, Sectors(length));
    var d' := r.inode.(length := length);
    var o := Owned(d, v.disk);
    EffectMore(v, r.vol, got, o, [s] + o);
    EffectPut(v, r.vol, got, [s] + o, s, EncodeInode(d'));
    FileOkMarked(r.vol.disk, r.vol.used, d');
    FileFrame(r.vol.disk, r.vol.used, Put(r.vol.disk, s, EncodeInode(d')), r.vol.used, d');
  }

  lemma EffectMore(v: Volume, v': Volume, got: seq<Word>, touched: seq<Word>, touched': seq<Word>)
    requires Effect(v, v', got, touched) && forall x :: x in touched ==> x in touched'
    ensures Effect(v, v', got, touched')
  {
    hide MapOk, MapOwned, Synced, NoDup;
  }

  lemma FileOkMarked(disk: seq<Block>, used: seq<bool>, d: InodeDisk)
    requires FileOk(disk, used, d)
    ensures Small(d) && Marked(used, Owned(d, disk)) && |used| == |disk|
  {
  }

  /** V' differs from V as a write to file S, whose inode goes from D to D', allows. */
  ghost predicate WriteEffect(v: Volume, v': Volume, s: Word, d: InodeDisk, d': InodeDisk, got: seq<Word>)
    requires Small(d)
  {
    && Effect(v, v', got, [s] + Owned(d, v.disk))
    && FileOk(v'.disk, v'.used, d')
    && Owned(d', v'.disk) == Owned(d, v.disk) + got
    && s !in Owned(d', v'.disk)
    && Get(v'.disk, s) == EncodeInode(d')
  }

  lemma EffectNone(v: Volume, touched: seq<Word>)
    requires MapOk(v)
    ensures Effect(v, v, [], touched)
  {
    hide MapOk, MapOwned, Synced;
  }

  lemma EffectOffMap(v: Volume, v': Volume, got: seq<Word>, touched: seq<Word>)
    requires Effect(v, v', got, touched)
    ensures forall x :: x in got ==> x !in MapOwned(v)
  {
  }

  /** The copying half of inode_write_at. */
  lemma CopyEffect(v: Volume, v1: Volume, s: Word, d: InodeDisk, d1: InodeDisk, got: seq<Word>, buf: seq<Byte>, off: nat)
    requires Writable(v, s, d) && WriteEffect(v, v1, s, d, d1, got)
    ensures var v2 := v1.(disk := Overwrite(v1.disk, FileSectors(d1, v1.disk), d1.length, buf, off));
            && WriteEffect(v, v2, s, d, d1, got)
            && Contents(d1, v2.disk)
               == (if off <= d1.length then Overlay(Contents(d1, v1.disk), buf[..Moved(d1.length, |buf|, off)], off)
                   else Contents(d1, v1.disk))
  {
    hide MapOk, MapOwned, Synced, NoDup, Owned, FileOk, EncodeInode, Effect, FileSectors, Overwrite, Get, Overlay, Bytes;
    FileOkSmall(v1.disk, v1.used, d1);
    FileOkSmall(v.disk, v.used, d);
    EffectOffMap(v, v1, got, [s] + Owned(d, v.disk));
    EffectOverwrite(v, v1, got, [s] + Owned(d, v.disk), d1, buf, off);
    OverwriteKeepsFile(v1.disk, v1.used, d1, buf, off);
    FileSectorsInRange(v1.disk, v1.used, d1);
    OwnedParts(d1, v1.disk);
    var fs := FileSectors(d1, v1.disk);
    assert s !in fs;
    OverwriteFrame(v1.disk, fs, d1.length, buf, off, s);
    if off <= d1.length {
      OverwriteOverlays(v1.disk, fs, d1.length, buf, off);
    } else {
      OverwritePastEnd(v1.disk, fs, d1.length, buf, off);
    }
  }

  lemma OverwritePastEnd(disk: seq<Block>, sectors: seq<Word>, len: nat, buf: seq<Byte>, off: nat)
    requires len <= off
    ensures Overwrite(disk, sectors, len, buf, off) == disk
  {
  }

  /** inode_write_at, when enough sectors are free: what it does to the volume
      and to the file's contents. */
  lemma WriteFileEffect(v: Volume, s: Word, d: InodeDisk, buf: seq<Byte>, off: nat) returns (got: seq<Word>)
    requires Writable(v, s, d) && Fits(v, d, |buf|, off) && Get(v.disk, s) == EncodeInode(d)
    ensures var r := WriteFile(v, s, d, buf, off);
            && WriteEffect(v, r.vol, s, d, r.inode, got)
            && Contents(r.inode, r.vol.disk) == Written(Contents(d, v.disk), buf, off)
            && r.written == (if buf != [] && off + |buf| == d.length + 1 then |buf| - 1 else |buf|)
            && r.inode.directory == d.directory && r.inode.magic == d.magic
  {
    hide MapOk, MapOwned, Synced, NoDup, Owned, FileOk, EncodeInode, Effect, FileSectors, Overwrite, Get, Bytes, AllocInode,
      CountFree, Overlay, ZeroExtend, Put;
    MapOkSane(v);
    FileOkSmall(v.disk, v.used, d);
    if Grows(d, |buf|, off) {
      got := GrowEffect(v, s, d, off + |buf|);
      var r := AllocInode(v, d, Sectors(off + |buf|));
      var d' := r.inode.(length := off + |buf|);
      var v' := r.vol.(disk := Put(r.vol.disk, s, EncodeInode(d')));
      AllocInodeKeeps(v, d, Sectors(off + |buf|));
      CopyEffect(v, v', s, d, d', got, buf, off);
    } else {
      got := [];
      EffectNone(v, [s] + Owned(d, v.disk));
      CopyEffect(v, v, s, d, d, [], buf, off);
    }
  }

  /** A file keeps its inode, its sectors and its contents. */
  ghost predicate Kept(fs: FileSys, v': Volume, t: Word)
    requires t in fs.live && Small(fs.live[t])
  {
    var d := fs.live[t];
    && FileOk(v'.disk, v'.used, d)
    && Owned(d, v'.disk) == Owned(d, fs.vol.disk)
    && Get(v'.disk, t) == Get(fs.vol.disk, t)
    && (t != 0 ==> Contents(d, v'.disk) == Contents(d, fs.vol.disk))
  }

  lemma RegionOwned(fs: FileSys, t: Word)
    requires Inv(fs) && t in fs.live
    ensures Small(fs.live[t]) && Region(fs, t) == [t] + Owned(fs.live[t], fs.vol.disk)
    ensures t !in Owned(fs.live[t], fs.vol.disk)
    ensures FileOk(fs.vol.disk, fs.vol.used, fs.live[t]) && Get(fs.vol.disk, t) == EncodeInode(fs.live[t])
    ensures forall x :: x in Region(fs, t) ==> x in fs.owner && fs.owner[x] == File(t)
    ensures t in Region(fs, t) && forall x :: x in Owned(fs.live[t], fs.vol.disk) ==> x in Region(fs, t)
    ensures t == 0 ==> MapOk(fs.vol) && Owned(fs.live[t], fs.vol.disk) == MapOwned(fs.vol)
  {
    assert FileInv(fs, t);
  }

  lemma OwnerMarks(fs: FileSys)
    requires Inv(fs)
    ensures MapOk(fs.vol) && Synced(fs.vol)
    ensures forall x :: x in fs.owner ==> x < |fs.vol.used| && fs.vol.used[x]
    ensures forall x :: 0 <= x < |fs.vol.used| && x !in fs.owner ==> !fs.vol.used[x]
    ensures 0 in fs.live && 0 in fs.owner && fs.vol.mapFile == Some(fs.live[0])
  {
    assert FileInv(fs, 0);
    assert 0 in Region(fs, 0);
  }

  /** An effect confined to free sectors and to one file leaves every other file alone. */
  lemma OthersKept(fs: FileSys, v': Volume, got: seq<Word>, touched: seq<Word>, t: Word)
    requires Inv(fs) && Effect(fs.vol, v', got, touched)
    requires t in fs.live && forall x :: x in touched ==> x in fs.owner && fs.owner[x] != File(t)
    ensures Small(fs.live[t]) && Kept(fs, v', t)
  {
    hide MapOwned, Synced, NoDup, Owned, FileOk, EncodeInode, Get, Region, Inv, MapOk;
    OwnerMarks(fs);
    RegionOwned(fs, t);
    RegionOwned(fs, 0);
    forall x | x in Region(fs, t) ensures x !in got && x !in touched && (t != 0 ==> x !in MapOwned(fs.vol)) {
    }
    if t == 0 {
      MapFileOk(v');
    } else {
      FileFrame(fs.vol.disk, fs.vol.used, v'.disk, v'.used, fs.live[t]);
    }
  }

  lemma MapFileOk(v: Volume)
    requires MapOk(v) && v.mapFile.Some?
    ensures FileOk(v.disk, v.used, v.mapFile.value) && MapOwned(v) == Owned(v.mapFile.value, v.disk)
  {
  }

  /** The owner map with every sector in XS given to file S. */
  ghost function Given(owner: map<Word, Owner>, xs: seq<Word>, s: Word): map<Word, Owner> {
    owner + map x | x in xs :: File(s)
  }

  /** The state once file S has inode D in volume V' and owns the sectors D lists. */
  ghost function WithFile(fs: FileSys, v': Volume, s: Word, d: InodeDisk): FileSys
    requires Small(d)
  {
    FileSys(v', fs.live[s := d], fs.open, Given(fs.owner, [s] + Owned(d, v'.disk), s))
  }

  /** From FS to V' a file was created or changed at S; every other file was kept. */
  ghost predicate FileChange(fs: FileSys, v': Volume, s: Word, d: InodeDisk, got: seq<Word>) {
    && Small(d) && Inv(fs) && s != 0
    && MapOk(v') && Synced(v') && v'.mapFile == fs.vol.mapFile && |v'.used| == |fs.vol.used|
    && s < |v'.disk| && FileOk(v'.disk, v'.used, d) && s !in Owned(d, v'.disk) && Get(v'.disk, s) == EncodeInode(d)
    && (forall x :: x in Owned(d, v'.disk) <==> x in got || (x in Region(fs, s) && x != s))
    && (s in fs.live || ((s in fs.owner ==> fs.owner[s] == Lost) && Region(fs, s) == [s]))
    && (forall x :: x in got ==> x !in fs.owner)
    && (forall x :: 0 <= x < |v'.used| ==> (v'.used[x] <==> fs.vol.used[x] || x in [s] + got))
    && (forall t :: t in fs.live && t != s ==> Small(fs.live[t]) && Kept(fs, v', t))
  }

  lemma ChangedFileInv(fs: FileSys, v': Volume, s: Word, d: InodeDisk, got: seq<Word>)
    requires FileChange(fs, v', s, d, got)
    ensures FileInv(WithFile(fs, v', s, d), s)
  {
    hide MapOwned, MapOk, Synced, NoDup, Owned, FileOk, EncodeInode, Get, Contents, Inv, Kept;
    var fs' := WithFile(fs, v', s, d);
    FileOkMarked(v'.disk, v'.used, d);
    if s in fs.live { RegionOwned(fs, s); }
    forall x | x in Region(fs', s) ensures x in fs'.owner && fs'.owner[x] == File(s) {
    }
  }

  lemma KeptFileInv(fs: FileSys, v': Volume, s: Word, d: InodeDisk, got: seq<Word>, t: Word)
    requires FileChange(fs, v', s, d, got) && t in fs.live && t != s
    ensures FileInv(WithFile(fs, v', s, d), t)
    ensures Region(WithFile(fs, v', s, d), t) == Region(fs, t)
  {
    hide MapOwned, MapOk, Synced, NoDup, Owned, FileOk, EncodeInode, Get, Contents, Inv;
    var fs' := WithFile(fs, v', s, d);
    RegionOwned(fs, t);
    if s in fs.live { RegionOwned(fs, s); }
    assert Kept(fs, v', t);
    assert t < |v'.disk| by { OwnerMarks(fs); MapOkSane(v'); }
    forall x | x in Region(fs', t) ensures x in fs'.owner && fs'.owner[x] == File(t) {
    }
  }

  lemma ChangedAccounted(fs: FileSys, v': Volume, s: Word, d: InodeDisk, got: seq<Word>)
    requires FileChange(fs, v', s, d, got)
    ensures Accounted(WithFile(fs, v', s, d))
  {
    hide MapOwned, MapOk, Synced, NoDup, Owned, FileOk, EncodeInode, Get, Contents, Inv, Kept;
    var fs' := WithFile(fs, v', s, d);
    OwnerMarks(fs);
    MapOkSane(v');
    FileOkMarked(v'.disk, v'.used, d);
    forall x | x in fs'.owner && fs'.owner[x].File?
      ensures fs'.owner[x].inode in fs'.live && x in Region(fs', fs'.owner[x].inode)
    {
      if x !in [s] + Owned(d, v'.disk) {
        OwnerRegion(fs, x);
        if fs.owner[x].inode != s { KeptFileInv(fs, v', s, d, got, fs.owner[x].inode); }
      }
    }
  }

  lemma OwnerRegion(fs: FileSys, x: Word)
    requires Inv(fs) && x in fs.owner && fs.owner[x].File?
    ensures fs.owner[x].inode in fs.live && x in Region(fs, fs.owner[x].inode)
  {
  }

  lemma ChangeInv(fs: FileSys, v': Volume, s: Word, d: InodeDisk, got: seq<Word>)
    requires FileChange(fs, v', s, d, got)
    ensures Inv(WithFile(fs, v', s, d))
  {
    hide MapOwned, MapOk, Synced, NoDup, Owned, FileOk, EncodeInode, Get, Contents, FileInv, Accounted, Kept, Region;
    ChangedFileInv(fs, v', s, d, got);
    forall t | t in fs.live && t != s ensures FileInv(WithFile(fs, v', s, d), t) {
      KeptFileInv(fs, v', s, d, got, t);
    }
    ChangedAccounted(fs, v', s, d, got);
  }

  /** File S may be written: it is open, writes are not denied, it is not the
      free map's file, and the write fits. */
  ghost predicate CanWrite(fs: FileSys, s: Word, size: nat, off: nat) {
    && s in fs.live && s in fs.open && s != 0
    && fs.open[s].denyWriteCnt == 0
    && Fits(fs.vol, fs.live[s], size, off)
  }

  ghost function DoWrite(fs: FileSys, s: Word, buf: seq<Byte>, off: nat): FileSys
    requires Inv(fs) && CanWrite(fs, s, |buf|, off)
  {
    FileSmall(fs, s);
    var r := WriteFile(fs.vol, s, fs.live[s], buf, off);
    if Small(r.inode) then WithFile(fs, r.vol, s, r.inode) else fs
  }

  lemma FileSmall(fs: FileSys, s: Word)
    requires Inv(fs) && s in fs.live
    ensures Small(fs.live[s]) && Sane(fs.vol)
  {
    RegionOwned(fs, s);
    OwnerMarks(fs);
  }

  /** File S of a consistent file system can be written to. */
  lemma FileWritable(fs: FileSys, s: Word)
    requires Inv(fs) && s in fs.live && s != 0
    ensures Writable(fs.vol, s, fs.live[s]) && Get(fs.vol.disk, s) == EncodeInode(fs.live[s])
  {
    hide MapOwned, MapOk, Synced, NoDup, Owned, FileOk, EncodeInode, Get, Inv, Region;
    OwnerMarks(fs);
    RegionOwned(fs, s);
    RegionOwned(fs, 0);
    assert forall x :: x in MapOwned(fs.vol) ==> fs.owner[x] == File(0);
  }

  lemma WriteChanges(fs: FileSys, s: Word, buf: seq<Byte>, off: nat) returns (got: seq<Word>)
    requires Inv(fs) && CanWrite(fs, s, |buf|, off)
    ensures Sane(fs.vol) && Small(fs.live[s])
    ensures var r := WriteFile(fs.vol, s, fs.live[s], buf, off);
            && FileChange(fs, r.vol, s, r.inode, got)
            && Contents(r.inode, r.vol.disk) == Written(Contents(fs.live[s], fs.vol.disk), buf, off)
  {
    hide MapOwned, NoDup, Owned, FileOk, EncodeInode, Get, Inv, WriteFile, Contents, Written, CountFree;
    FileSmall(fs, s);
    FileWritable(fs, s);
    OwnerMarks(fs);
    RegionOwned(fs, s);
    got := WriteFileEffect(fs.vol, s, fs.live[s], buf, off);
    var r := WriteFile(fs.vol, s, fs.live[s], buf, off);
    forall t | t in fs.live && t != s ensures Small(fs.live[t]) && Kept(fs, r.vol, t) {
      OthersKept(fs, r.vol, got, [s] + Owned(fs.live[s], fs.vol.disk), t);
    }
    FileOkSmall(r.vol.disk, r.vol.used, r.inode);
  }

  /** A write keeps the file system consistent and changes no other file. */
  lemma WriteInv(fs: FileSys, s: Word, buf: seq<Byte>, off: nat)
    requires Inv(fs) && CanWrite(fs, s, |buf|, off)
    ensures var fs' := DoWrite(fs, s, buf, off);
            Inv(fs') && Files(fs') == Files(fs)[s := Written(Files(fs)[s], buf, off)]
  {
    hide MapOwned, MapOk, Synced, NoDup, Owned, FileOk, EncodeInode, Get, Inv, WriteFile, Contents, Written, CountFree,
      Accounted, FileInv, Region;
    FileSmall(fs, s);
    var got := WriteChanges(fs, s, buf, off);
    var r := WriteFile(fs.vol, s, fs.live[s], buf, off);
    ChangeInv(fs, r.vol, s, r.inode, got);
    var fs' := DoWrite(fs, s, buf, off);
    forall t | t in fs.live && t != 0 && t != s
      ensures Contents(fs'.live[t], fs'.vol.disk) == Contents(fs.live[t], fs.vol.disk)
    {
      assert Kept(fs, r.vol, t);
    }
  }

  const INODE_MAGIC: Word := 0x494e4f44

  function NewInode(length: Length, directory: bool): InodeDisk {
    InodeDisk(seq(123, _ => 0), 0, 0, directory, length, INODE_MAGIC)
  }

  datatype CreateResult = CreateResult(ok: bool, vol: Volume, sector: Word, inode: InodeDisk)

  /** inode_create at sector S: allocate, then store the inode. */
  function CreateInode(v: Volume, s: Word, length: Length, directory: bool): CreateResult
    requires Sane(v) && length <= 251 * 512
  {
    var r := AllocInode(v, NewInode(length, directory), Sectors(length));
    CreateResult(r.ok, if r.ok then r.vol.(disk := Put(r.vol.disk, s, EncodeInode(r.inode))) else r.vol, s, r.inode)
  }

  /** The part of filesys_create below directories: a sector for the inode,
      then the inode.  When that fails the inode's sector is released. */
  function CreateFile(v: Volume, length: Length, directory: bool): CreateResult
    requires Sane(v) && length <= 251 * 512
  {
    match TakeSector(v)
    case None => CreateResult(false, v, 0, NewInode(length, directory))
    case Some((s, v1)) =>
      var r := CreateInode(v1, s, length, directory);
      if r.ok || s >= |r.vol.used| then r else r.(vol := Release(r.vol, s))
  }

  predicate CanCreate(v: Volume, length: Length) {
    length <= 251 * 512 && 1 + Needed(0, Sectors(length)) <= CountFree(v.used)
  }

  lemma EmptyFileOk(v: Volume, directory: bool)
    requires Sane(v)
    ensures FileOk(v.disk, v.used, NewInode(0, directory))
    ensures Owned(NewInode(0, directory), v.disk) == [] && Contents(NewInode(0, directory), v.disk) == []
  {
  }

  /** Creating a file takes its inode's sector and its data sectors, all zero. */
  lemma CreateEffect(v: Volume, length: Length, directory: bool) returns (got: seq<Word>)
    requires MapOk(v) && CanCreate(v, length)
    ensures var r := CreateFile(v, length, directory);
            && r.ok && 0 < r.sector < |v.used| && !v.used[r.sector]
            && r.inode.directory == directory && r.inode.magic == INODE_MAGIC
            && Effect(v, r.vol, [r.sector] + got, [])
            && FileOk(r.vol.disk, r.vol.used, r.inode)
            && Owned(r.inode, r.vol.disk) == got
            && Get(r.vol.disk, r.sector) == EncodeInode(r.inode)
            && Contents(r.inode, r.vol.disk) == ZeroExtend([], length)
  {
    hide MapOk, MapOwned, Synced, NoDup, Owned, FileOk, EncodeInode, Effect, FileSectors, Get, Bytes, AllocInode,
      CountFree, ZeroExtend, Put, TakeSector, NewInode;
    MapOkSane(v);
    TakeSectorCount(v);
    TakeSectorIsEffect(v);
    TakeSectorEffect(v);
    var (s, v1) := TakeSector(v).value;
    var d0 := NewInode(0, directory);
    EmptyFileOk(v1, directory);
    NewInodeLength(length, directory);
    AllocInodeLength(v1, d0, Sectors(length), length);
    AllocInodeKeeps(v1, NewInode(length, directory), Sectors(length));
    got := GrowEffect(v1, s, d0, length);
    var r := CreateFile(v, length, directory);
    assert Owned(r.inode, r.vol.disk) == [] + got;
    EffectTwo(v, v1, s, r.vol, got);
  }

  lemma NewInodeLength(length: Length, directory: bool)
    ensures NewInode(length, directory) == NewInode(0, directory).(length := length)
    ensures NewInode(0, directory).length == 0
    ensures NewInode(length, directory).directory == directory && NewInode(length, directory).magic == INODE_MAGIC
  {
  }

  lemma EffectTwo(v: Volume, v1: Volume, s: Word, v2: Volume, got: seq<Word>)
    requires Effect(v, v1, [s], []) && Effect(v1, v2, got, [s] + [])
    ensures Effect(v, v2, [s] + got, [])
  {
    hide MapOk, MapOwned, Synced, NoDup, Effect;
    assert [s] + [] == [s];
    EffectWeaken(v, v1, [s], [s]);
    EffectTransitive(v, v1, [s], v2, got, [s]);
    EffectTouchedTaken(v, v2, [s] + got, s);
  }

  ghost function DoCreate(fs: FileSys, length: Length, directory: bool): FileSys
    requires Inv(fs) && CanCreate(fs.vol, length)
  {
    FileSmall(fs, 0);
    var r := CreateFile(fs.vol, length, directory);
    if Small(r.inode) then WithFile(fs, r.vol, r.sector, r.inode) else fs
  }

  lemma CreateChanges(fs: FileSys, length: Length, directory: bool) returns (got: seq<Word>)
    requires Inv(fs) && CanCreate(fs.vol, length)
    ensures Sane(fs.vol)
    ensures var r := CreateFile(fs.vol, length, directory);
            && r.ok && r.sector !in fs.live && r.sector !in fs.owner
            && FileChange(fs, r.vol, r.sector, r.inode, got)
            && Contents(r.inode, r.vol.disk) == ZeroExtend([], length)
  {
    hide MapOwned, NoDup, Owned, FileOk, EncodeInode, Get, Inv, CreateFile, Contents, ZeroExtend, CountFree;
    OwnerMarks(fs);
    FileSmall(fs, 0);
    got := CreateEffect(fs.vol, length, directory);
    var r := CreateFile(fs.vol, length, directory);
    var s := r.sector;
    if s in fs.live { RegionOwned(fs, s); }
    forall t | t in fs.live && t != s ensures Small(fs.live[t]) && Kept(fs, r.vol, t) {
      OthersKept(fs, r.vol, [s] + got, [], t);
    }
    FileOkSmall(r.vol.disk, r.vol.used, r.inode);
    assert s !in got by { EffectFirst(fs.vol, r.vol, s, got); }
    assert forall x :: x in got ==> x in [s] + got;
  }

  lemma EffectFirst(v: Volume, v': Volume, s: Word, got: seq<Word>)
    requires Effect(v, v', [s] + got, [])
    ensures s !in got
  {
    hide MapOk, MapOwned, Synced;
    var all := [s] + got;
    assert all[0] == s && forall i :: 0 <= i < |got| ==> all[i + 1] == got[i];
  }

  /** Creating a file adds one file of zeros at a new number and changes no other. */
  lemma CreateInv(fs: FileSys, length: Length, directory: bool)
    requires Inv(fs) && CanCreate(fs.vol, length)
    ensures Sane(fs.vol)
    ensures var s := CreateFile(fs.vol, length, directory).sector;
            var fs' := DoCreate(fs, length, directory);
            s != 0 && s !in fs.live && Inv(fs') && Files(fs') == Files(fs)[s := ZeroExtend([], length)]
  {
    hide MapOwned, MapOk, Synced, NoDup, Owned, FileOk, EncodeInode, Get, Inv, CreateFile, Contents, CountFree, Accounted,
      FileInv, Region, ZeroExtend;
    OwnerMarks(fs);
    FileSmall(fs, 0);
    var got := CreateChanges(fs, length, directory);
    var r := CreateFile(fs.vol, length, directory);
    ChangeInv(fs, r.vol, r.sector, r.inode, got);
    var fs' := DoCreate(fs, length, directory);
    forall t | t in fs.live && t != 0
      ensures Contents(fs'.live[t], fs'.vol.disk) == Contents(fs.live[t], fs.vol.disk)
    {
      assert Kept(fs, r.vol, t);
    }
  }

  /** The sectors inode_close releases for a removed file: the inode's own and
      the data sectors, but not the index sector. */
  function Released(s: Word, d: InodeDisk, disk: seq<Block>): seq<Word>
    requires Small(d)
  {
    [s] + FileSectors(d, disk)
  }

  /** Ownership once file S is gone: its index sector, if it had one, is lost. */
  ghost function Forgotten(owner: map<Word, Owner>, s: Word, d: InodeDisk): map<Word, Owner> {
    map x | x in owner && (owner[x] != File(s) || (Sectors(d.length) > 123 && x == d.indirect))
      :: if owner[x] == File(s) then Lost else owner[x]
  }

  ghost function DoDelete(fs: FileSys, s: Word): FileSys
    requires Inv(fs) && s in fs.live && s != 0
  {
    ReleasedMarked(fs, s);
    FileSys(ReleaseAll(fs.vol, Released(s, fs.live[s], fs.vol.disk)),
            fs.live - {s}, fs.open - {s}, Forgotten(fs.owner, s, fs.live[s]))
  }

  /** Every sector the last close releases is marked, listed once, and not the map's. */
  lemma ReleasedMarked(fs: FileSys, s: Word)
    requires Inv(fs) && s in fs.live && s != 0
    ensures Small(fs.live[s]) && MapOk(fs.vol)
    ensures var xs := Released(s, fs.live[s], fs.vol.disk);
            NoDup(xs) && Marked(fs.vol.used, xs) && 0 !in xs && Disjoint(xs, MapOwned(fs.vol))
            && forall x :: x in xs <==> x in Region(fs, s) && !(Sectors(fs.live[s].length) > 123 && x == fs.live[s].indirect)
  {
    hide MapOwned, MapOk, Synced, EncodeInode, Get, Inv, Contents, FileSectors, FileOk, NoDup, Owned;
    OwnerMarks(fs);
    RegionOwned(fs, s);
    RegionOwned(fs, 0);
    ReleasedMembers(fs, s);
    ReleasedOnce(fs, s);
  }

  lemma ReleasedMembers(fs: FileSys, s: Word)
    requires Inv(fs) && s in fs.live
    ensures Small(fs.live[s])
    ensures forall x :: x in Released(s, fs.live[s], fs.vol.disk)
                        <==> x in Region(fs, s) && !(Sectors(fs.live[s].length) > 123 && x == fs.live[s].indirect)
  {
    hide MapOwned, MapOk, Synced, EncodeInode, Get, Inv, Contents, FileSectors, Owned, SlackZero, Shape;
    RegionOwned(fs, s);
    OwnedParts(fs.live[s], fs.vol.disk);
    OwnedMembers(fs.live[s], fs.vol.disk);
    IndirectNotInode(fs, s);
  }

  lemma ReleasedOnce(fs: FileSys, s: Word)
    requires Inv(fs) && s in fs.live
    ensures Small(fs.live[s]) && NoDup(Released(s, fs.live[s], fs.vol.disk))
  {
    hide MapOwned, MapOk, Synced, EncodeInode, Get, Inv, Contents, FileSectors, Owned, SlackZero, Shape;
    RegionOwned(fs, s);
    OwnedParts(fs.live[s], fs.vol.disk);
    OwnedMembers(fs.live[s], fs.vol.disk);
    NoDupConcat([s], FileSectors(fs.live[s], fs.vol.disk));
  }

  lemma OwnedMembers(d: InodeDisk, disk: seq<Block>)
    requires Small(d)
    ensures forall x :: x in Owned(d, disk) <==> x in FileSectors(d, disk) || (Sectors(d.length) > 123 && x == d.indirect)
  {
    OwnedParts(d, disk);
    var fs := FileSectors(d, disk);
    if |fs| > 123 {
      assert fs == fs[..123] + fs[123..];
    }
  }

  lemma IndirectNotInode(fs: FileSys, s: Word)
    requires Inv(fs) && s in fs.live
    ensures Small(fs.live[s]) && (Sectors(fs.live[s].length) > 123 ==> fs.live[s].indirect != s)
  {
    hide Inv;
    RegionOwned(fs, s);
    OwnedParts(fs.live[s], fs.vol.disk);
  }

  /** Releasing file S's sectors leaves every other file alone. */
  lemma DeleteKeeps(fs: FileSys, s: Word, t: Word)
    requires Inv(fs) && s in fs.live && s != 0 && t in fs.live && t != s
    ensures Small(fs.live[t]) && Kept(fs, DoDelete(fs, s).vol, t)
  {
    hide MapOwned, Synced, NoDup, Owned, FileOk, EncodeInode, Get, Region, Inv, MapOk, ReleaseAll, Released;
    OwnerMarks(fs);
    RegionOwned(fs, s);
    RegionOwned(fs, t);
    RegionOwned(fs, 0);
    ReleasedMarked(fs, s);
    var xs := Released(s, fs.live[s], fs.vol.disk);
    ReleaseAllEffect(fs.vol, xs);
    var v' := DoDelete(fs, s).vol;
    assert forall x :: x in Region(fs, t) ==> x !in xs;
    if t == 0 {
      MapFileOk(v');
    } else {
      FileFrame(fs.vol.disk, fs.vol.used, v'.disk, v'.used, fs.live[t]);
    }
  }

  lemma DeleteFileInv(fs: FileSys, s: Word, t: Word)
    requires Inv(fs) && s in fs.live && s != 0 && t in fs.live && t != s
    ensures FileInv(DoDelete(fs, s), t)
    ensures Region(DoDelete(fs, s), t) == Region(fs, t)
  {
    hide MapOwned, MapOk, Synced, NoDup, Owned, FileOk, EncodeInode, Get, Contents, Inv, ReleaseAll;
    OwnerMarks(fs);
    RegionOwned(fs, s);
    RegionOwned(fs, t);
    DeleteKeeps(fs, s, t);
    ReleasedMarked(fs, s);
    ReleaseAllEffect(fs.vol, Released(s, fs.live[s], fs.vol.disk));
    MapOkSane(fs.vol);
  }

  lemma DeleteAccounted(fs: FileSys, s: Word)
    requires Inv(fs) && s in fs.live && s != 0
    ensures Accounted(DoDelete(fs, s))
  {
    hide MapOwned, MapOk, Synced, NoDup, Owned, FileOk, EncodeInode, Get, Contents, Inv, ReleaseAll, Region, Released;
    OwnerMarks(fs);
    RegionOwned(fs, s);
    ReleasedMarked(fs, s);
    ReleaseAllEffect(fs.vol, Released(s, fs.live[s], fs.vol.disk));
    var fs' := DoDelete(fs, s);
    forall x | x in fs.owner ensures fs.owner[x] == File(s) <==> x in Region(fs, s) {
      if fs.owner[x] == File(s) { OwnerRegion(fs, x); }
    }
    forall x | x in fs'.owner && fs'.owner[x].File?
      ensures fs'.owner[x].inode in fs'.live && x in Region(fs', fs'.owner[x].inode)
    {
      OwnerRegion(fs, x);
      DeleteFileInv(fs, s, fs.owner[x].inode);
    }
  }

  /** Deleting a file keeps the file system consistent and removes just that file. */
  lemma DeleteInv(fs: FileSys, s: Word)
    requires Inv(fs) && s in fs.live && s != 0
    ensures var fs' := DoDelete(fs, s); Inv(fs') && Files(fs') == Files(fs) - {s}
  {
    hide MapOwned, MapOk, Synced, NoDup, Owned, FileOk, EncodeInode, Get, Contents, ReleaseAll, Region, Released, Accounted,
      FileInv;
    OwnerMarks(fs);
    ReleasedMarked(fs, s);
    ReleaseAllEffect(fs.vol, Released(s, fs.live[s], fs.vol.disk));
    var fs' := DoDelete(fs, s);
    DeleteAccounted(fs, s);
    forall t | t in fs'.live ensures FileInv(fs', t) && Small(fs.live[t]) && Kept(fs, fs'.vol, t) {
      DeleteFileInv(fs, s, t);
      DeleteKeeps(fs, s, t);
    }
  }
}
