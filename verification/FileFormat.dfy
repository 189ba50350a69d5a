/** Formatting a volume: the free map with sectors 0 and 1 taken, the free map's
    own file, then the root directory and the entry that names its parent.  This
    is where every run starts. */
module FileFormat {
  import opened Basics
  import opened Blocks
  import opened FileData
  import opened Inodes
  import opened Volumes
  import opened Allocation
  import opened FileSystem
  import opened FileRuns

  /** free_map_init on a disk with arbitrary contents. */
  function BlankVolume(disk: seq<Block>, pad: seq<bool>): Volume {
    Volume(disk, seq(|disk|, i => i < 2), pad, None)
  }

  /** bitmap_file_size. */
  function MapLength(disk: seq<Block>, pad: seq<bool>): nat { (|disk| + |pad|) / 8 }

  /** The root directory starts with room for 16 entries of 20 bytes. */
  const ROOT_LENGTH: Length := 320

  /** free_map_create: the file is created while the map is not yet written
      back, then opened and written. */
  function MapCreated(v: Volume): Volume
    requires Sane(v) && v.mapFile.None? && MapLength(v.disk, v.pad) <= 251 * 512
  {
    var r := CreateInode(v, 0, MapLength(v.disk, v.pad), false);
    if Sane(r.vol.(mapFile := Some(r.inode))) then Persist(r.vol.(mapFile := Some(r.inode))) else v
  }

  /** A disk that formatting can serve: whole bitmap words, a small enough map
      file, and room for both files. */
  predicate Formattable(disk: seq<Block>, pad: seq<bool>) {
    && 2 <= |disk| < 0x1_0000_0000
    && (|disk| + |pad|) % 32 == 0
    && MapLength(disk, pad) <= 251 * 512
    && Needed(0, Sectors(MapLength(disk, pad))) + 1 <= |disk| - 2
  }

  lemma {:induction false} BlankFree(n: nat)
    requires n >= 2
    ensures CountFree(seq(n, i => i < 2)) == n - 2
  {
    var used := seq(n, i => i < 2);
    if n == 2 {
      assert used == [true, true];
      assert CountFree([true, true]) == CountFree([true, true][..1]) == CountFree([true][..0]) by {
        assert [true, true][..1] == [true];
      }
    } else {
      assert used[..n - 1] == seq(n - 1, i => i < 2);
      BlankFree(n - 1);
    }
  }

  /** inode_create at a sector S that is already marked. */
  lemma CreateInodeEffect(v: Volume, s: Word, length: Length, directory: bool) returns (got: seq<Word>)
    requires MapOk(v) && length <= 251 * 512 && Needed(0, Sectors(length)) <= CountFree(v.used)
    requires s < |v.used| && v.used[s] && s !in MapOwned(v)
    ensures var r := CreateInode(v, s, length, directory);
            && r.ok && r.inode.length == length && r.inode.directory == directory && r.inode.magic == INODE_MAGIC
            && Effect(v, r.vol, got, [s])
            && FileOk(r.vol.disk, r.vol.used, r.inode)
            && Owned(r.inode, r.vol.disk) == got && s !in got
            && Get(r.vol.disk, s) == EncodeInode(r.inode)
            && Contents(r.inode, r.vol.disk) == ZeroExtend([], length)
            && CountFree(r.vol.used) == CountFree(v.used) - Needed(0, Sectors(length))
  {
    hide MapOk, MapOwned, Synced, NoDup, Owned, FileOk, EncodeInode, AllocInode, CountFree, Put, NewInode, Contents, Get,
      Effect, ZeroExtend;
    MapOkSane(v);
    var d0 := NewInode(0, directory);
    EmptyFileOk(v, directory);
    NewInodeLength(length, directory);
    AllocInodeLength(v, d0, Sectors(length), length);
    AllocInodeKeeps(v, NewInode(length, directory), Sectors(length));
    got := GrowEffect(v, s, d0, length);
    var r := CreateInode(v, s, length, directory);
    assert [s] + [] == [s] && [] + got == got;
    FileOkSmall(r.vol.disk, r.vol.used, r.inode);
    CountAfter(v, r.vol, got, [s]);
    GrownLength(d0, r.inode, v.disk, r.vol.disk, got);
  }

  /** The map's file right after its creation. */
  lemma MapFileCreated(disk: seq<Block>, pad: seq<bool>) returns (got: seq<Word>)
    requires Formattable(disk, pad)
    ensures var v := BlankVolume(disk, pad);
            var r := CreateInode(v, 0, MapLength(disk, pad), false);
            var v' := MapCreated(v);
            && MapOk(v') && Synced(v') && v'.mapFile == Some(r.inode) && v'.pad == pad && |v'.disk| == |disk| == |v'.used|
            && MapOwned(v') == got
            && (forall x :: x in got ==> 1 < x < |disk|)
            && (forall x :: 0 <= x < |disk| ==> (v'.used[x] <==> x < 2 || x in got))
            && CountFree(v'.used) >= 1
            && Get(v'.disk, 0) == EncodeInode(r.inode)
  {
    var v := BlankVolume(disk, pad);
    var length := MapLength(disk, pad);
    BlankFree(|disk|);
    BlankMapOk(disk, pad);
    hide MapOk, MapOwned, Synced, NoDup, Owned, FileOk, EncodeInode, CountFree, Contents, Get, CreateInode, Persist;
    got := CreateInodeEffect(v, 0, length, false);
    var r := CreateInode(v, 0, length, false);
    EffectNonzero(v, r.vol, got, [0]);
    WithMapFile(r.vol, r.inode);
    PersistEffect(r.vol.(mapFile := Some(r.inode)));
  }

  lemma BlankMapOk(disk: seq<Block>, pad: seq<bool>)
    requires Formattable(disk, pad)
    ensures MapOk(BlankVolume(disk, pad)) && MapOwned(BlankVolume(disk, pad)) == []
  {
  }

  lemma BlankSane(disk: seq<Block>, pad: seq<bool>)
    requires Formattable(disk, pad)
    ensures var v := BlankVolume(disk, pad);
            Sane(v) && v.mapFile.None? && v.disk == disk && v.pad == pad && 0 < |v.used|
  {
  }

  lemma WithMapFile(v: Volume, d: InodeDisk)
    requires MapOk(v) && v.mapFile.None? && FileOk(v.disk, v.used, d) && d.length == (|v.used| + |v.pad|) / 8
    ensures MapOk(v.(mapFile := Some(d))) && Small(d) && MapOwned(v.(mapFile := Some(d))) == Owned(d, v.disk)
  {
  }

  lemma {:induction false} CountAfter(v: Volume, v': Volume, got: seq<Word>, touched: seq<Word>)
    requires Effect(v, v', got, touched)
    ensures CountFree(v'.used) == CountFree(v.used) - |got|
  {
    hide MapOk, MapOwned, Synced;
    CountMarked(v.used, v'.used, got);
  }

  lemma {:induction false} CountMarked(used: seq<bool>, used': seq<bool>, got: seq<Word>)
    requires |used'| == |used| && NoDup(got)
    requires forall x :: x in got ==> x < |used| && !used[x]
    requires forall x :: 0 <= x < |used| ==> (used'[x] <==> used[x] || x in got)
    ensures CountFree(used') == CountFree(used) - |got|
    decreases |got|
  {
    if got == [] {
      assert used' == used;
    } else {
      var s, rest := got[0], got[1..];
      assert got == [s] + rest && s in got && s !in rest;
      assert forall x :: x in rest ==> x in got;
      CountFreeTaken(used, s);
      CountMarked(used[s := true], used', rest);
    }
  }

  lemma GrownLength(d: InodeDisk, d': InodeDisk, disk: seq<Block>, disk': seq<Block>, got: seq<Word>)
    requires Small(d) && Small(d') && d.length == 0 && Owned(d', disk') == Owned(d, disk) + got
    ensures |got| == Needed(0, Sectors(d'.length))
  {
  }

  /** The state once inode_create has made the root directory. */
  ghost function RootMade(disk: seq<Block>, pad: seq<bool>): FileSys
    requires Formattable(disk, pad)
  {
    var v := BlankVolume(disk, pad);
    var d := CreateInode(v, 0, MapLength(disk, pad), false).inode;
    var fs := MapOnly(MapCreated(v), d);
    if Sane(fs.vol) then
      var r := CreateInode(fs.vol, 1, ROOT_LENGTH, true);
      if Small(r.inode) then WithFile(fs, r.vol, 1, r.inode) else fs
    else fs
  }

  /** Only the map's file exists; sector 1 is marked for the root directory. */
  ghost function MapOnly(v: Volume, d: InodeDisk): FileSys {
    FileSys(v, map[0 := d], map[0 := OpenInode(1, false, 0)],
            Given(map[1 := Lost], [0] + if Small(d) then Owned(d, v.disk) else [], 0))
  }

  lemma MapOnlyInv(v: Volume, d: InodeDisk)
    requires MapOk(v) && Synced(v) && v.mapFile == Some(d)
    requires Get(v.disk, 0) == EncodeInode(d)
    requires forall x :: x in MapOwned(v) ==> 1 < x
    requires forall x :: 0 <= x < |v.used| ==> (v.used[x] <==> x < 2 || x in MapOwned(v))
    requires |v.used| >= 2
    ensures Inv(MapOnly(v, d)) && Files(MapOnly(v, d)) == map[]
    ensures 1 in MapOnly(v, d).owner && MapOnly(v, d).owner[1] == Lost
  {
    hide Synced, EncodeInode, NoDup, Shape, SlackZero, Owned;
    var fs := MapOnly(v, d);
    FileOkSmall(v.disk, v.used, d);
    assert MapOwned(v) == Owned(d, v.disk);
    assert Region(fs, 0) == [0] + Owned(d, v.disk);
    forall x | x in Region(fs, 0) ensures x in fs.owner && fs.owner[x] == File(0) {
    }
    assert FileOk(fs.vol.disk, fs.vol.used, fs.live[0]);
    assert 0 !in Owned(d, v.disk);
    assert FileInv(fs, 0);
  }

  /** The files are consistent and the root directory is 320 zero bytes. */
  lemma RootMadeInv(disk: seq<Block>, pad: seq<bool>)
    requires Formattable(disk, pad)
    ensures var fs := RootMade(disk, pad);
            && Inv(fs) && Files(fs) == map[1 := ZeroExtend([], ROOT_LENGTH)]
            && fs.open == map[0 := OpenInode(1, false, 0)]
  {
    hide BlankVolume, MapCreated, CreateInode, MapOk, MapOwned, Synced, Get, EncodeInode, Inv, Files, CountFree, ZeroExtend,
      Contents, Owned, FileOk, Given;
    BlankSane(disk, pad);
    var v := BlankVolume(disk, pad);
    var d := CreateInode(v, 0, MapLength(disk, pad), false).inode;
    var got := MapFileCreated(disk, pad);
    var v' := MapCreated(v);
    MapOnlyInv(v', d);
    var fs := MapOnly(v', d);
    RootCreated(fs);
  }

  lemma RootCreated(fs: FileSys)
    requires Inv(fs) && fs.live.Keys == {0} && 1 in fs.owner && fs.owner[1] == Lost && CountFree(fs.vol.used) >= 1
    ensures Sane(fs.vol)
    ensures var r := CreateInode(fs.vol, 1, ROOT_LENGTH, true);
            && Small(r.inode)
            && Inv(WithFile(fs, r.vol, 1, r.inode))
            && Files(WithFile(fs, r.vol, 1, r.inode)) == map[1 := ZeroExtend([], ROOT_LENGTH)]
  {
    hide MapOwned, NoDup, Owned, FileOk, EncodeInode, Get, Inv, CreateInode, Contents, ZeroExtend, CountFree;
    OwnerMarks(fs);
    MapOkSane(fs.vol);
    RegionOwned(fs, 0);
    var got := CreateInodeEffect(fs.vol, 1, ROOT_LENGTH, true);
    var r := CreateInode(fs.vol, 1, ROOT_LENGTH, true);
    OthersKept(fs, r.vol, got, [1], 0);
    FileOkSmall(r.vol.disk, r.vol.used, r.inode);
    ChangeInv(fs, r.vol, 1, r.inode, got);
  }

  /** The entry dir_create stores first: the directory's own sector, 1, in the first word;
      the name and the flag are not initialised. */
  predicate RootEntry(de: seq<Byte>) { |de| == 20 && de[..4] == [1, 0, 0, 0] }

  /** The root directory takes a write of 20 bytes at its start without growing. */
  lemma RootFits(fs: FileSys, size: nat)
    requires Inv(fs) && 1 in Files(fs) && |Files(fs)[1]| == ROOT_LENGTH && size <= ROOT_LENGTH
    ensures 1 in fs.live && Fits(fs.vol, fs.live[1], size, 0)
  {
    hide Bytes, FileSectors, CountFree;
    FileSmall(fs, 1);
  }

  lemma RootOverlay(de: seq<Byte>)
    requires |de| == 20
    ensures |ZeroExtend([], ROOT_LENGTH)| == ROOT_LENGTH
    ensures Written(ZeroExtend([], ROOT_LENGTH), de, 0) == Overlay(ZeroExtend([], ROOT_LENGTH), de, 0)
  {
    assert de[..20] == de;
  }

  /** Each call is served, and what the three do to the files is what they do to byte sequences. */
  lemma EntrySteps(fs: FileSys, de: seq<Byte>)
    requires Inv(fs) && |de| == 20
    requires Files(fs) == map[1 := ZeroExtend([], ROOT_LENGTH)] && fs.open == map[0 := OpenInode(1, false, 0)]
    ensures Enabled(fs, Open(1))
    ensures var fs1 := Step(fs, Open(1));
            && Inv(fs1) && Enabled(fs1, Write(1, de, 0)) && Answer(fs1, Write(1, de, 0)) == Count(20)
            && var fs2 := Step(fs1, Write(1, de, 0));
            && Inv(fs2) && Enabled(fs2, Close(1))
            && var fs3 := Step(fs2, Close(1));
            && Inv(fs3) && View(fs3) == Abstract(map[1 := Overlay(ZeroExtend([], ROOT_LENGTH), de, 0)], map[])
            && fs3.open == fs.open
  {
    hide Inv, Files, Step, Enabled, Answer, Written, ZeroExtend, Overlay, Fits;
    RootOverlay(de);
    OpenEnabled(fs);
    StepRefines(fs, Open(1));
    var fs1 := Step(fs, Open(1));
    RootFits(fs1, 20);
    WriteEnabled(fs1, de);
    AnswerRefines(fs1, Write(1, de, 0));
    StepRefines(fs1, Write(1, de, 0));
    var fs2 := Step(fs1, Write(1, de, 0));
    CloseEnabled(fs2);
    StepRefines(fs2, Close(1));
    EntryOpeners(fs, de);
  }

  /** The three calls leave the openers as they were. */
  lemma EntryOpeners(fs: FileSys, de: seq<Byte>)
    requires Inv(fs) && Enabled(fs, Open(1)) && fs.open == map[0 := OpenInode(1, false, 0)]
    requires Inv(Step(fs, Open(1))) && Enabled(Step(fs, Open(1)), Write(1, de, 0))
    requires var fs2 := Step(Step(fs, Open(1)), Write(1, de, 0)); Inv(fs2) && Enabled(fs2, Close(1))
    ensures Step(Step(Step(fs, Open(1)), Write(1, de, 0)), Close(1)).open == fs.open
  {
    hide Inv, DoWrite, WriteFile, Fits;
    var fs1 := Step(fs, Open(1));
    WriteOpen(fs1, 1, de, 0);
  }

  lemma OpenEnabled(fs: FileSys)
    requires Inv(fs) && 1 in Files(fs)
    ensures Enabled(fs, Open(1))
  {
    hide Contents;
  }

  lemma WriteEnabled(fs: FileSys, buf: seq<Byte>)
    requires Inv(fs) && 1 in View(fs).open && View(fs).open[1].denyWriteCnt == 0
    requires 1 in fs.live && Fits(fs.vol, fs.live[1], |buf|, 0)
    ensures Enabled(fs, Write(1, buf, 0))
  {
    hide Contents, Fits, Inv, Files;
  }

  lemma CloseEnabled(fs: FileSys)
    requires Inv(fs) && 1 in View(fs).open
    ensures Enabled(fs, Close(1))
  {
    hide Inv, Files;
    OpenFacts(fs);
  }

  /** The state once the entry is written. */
  ghost function WithEntry(fs: FileSys, de: seq<Byte>): FileSys
    requires Inv(fs) && |de| == 20
    requires Files(fs) == map[1 := ZeroExtend([], ROOT_LENGTH)] && fs.open == map[0 := OpenInode(1, false, 0)]
  {
    EntrySteps(fs, de);
    Step(Step(Step(fs, Open(1)), Write(1, de, 0)), Close(1))
  }

  /** The state after formatting, whatever the uninitialised bytes of the first entry. */
  ghost function Formatted(disk: seq<Block>, pad: seq<bool>, de: seq<Byte>): FileSys
    requires Formattable(disk, pad) && RootEntry(de)
  {
    RootMadeInv(disk, pad);
    WithEntry(RootMade(disk, pad), de)
  }

  /** A freshly formatted volume is consistent, nothing but the map's file is open, and the
      root directory is 320 bytes: the entry, then zeros. */
  lemma FormatInv(disk: seq<Block>, pad: seq<bool>, de: seq<Byte>)
    requires Formattable(disk, pad) && RootEntry(de)
    ensures Inv(Formatted(disk, pad, de))
    ensures View(Formatted(disk, pad, de)) == Abstract(map[1 := Overlay(ZeroExtend([], ROOT_LENGTH), de, 0)], map[])
    ensures Formatted(disk, pad, de).open == map[0 := OpenInode(1, false, 0)]
  {
    hide Inv, Files, Step, Enabled, ZeroExtend, Overlay, RootMade, Formattable;
    RootMadeInv(disk, pad);
    EntrySteps(RootMade(disk, pad), de);
  }
}
