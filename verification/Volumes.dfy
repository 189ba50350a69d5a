/** The volume under the file system: its sectors, the free map, and the free
    map's own file, to which free_map_allocate and free_map_release write the
    map back after every change. */
module Volumes {
  import opened Basics
  import opened Blocks
  import opened FileData
  import opened Inodes
  import opened Bitmaps

  /** USED has one bit per sector; PAD is the unused rest of the last bitmap
      word; MAPFILE is the open free-map inode (None while formatting). */
  datatype Volume = Volume(disk: seq<Block>, used: seq<bool>, pad: seq<bool>, mapFile: Option<InodeDisk>)

  function MapImage(v: Volume): seq<Byte> { Image(v.used + v.pad) }

  /** One bit per sector, sector numbers fit a word, and the map's file is small. */
  predicate Sane(v: Volume) {
    |v.used| == |v.disk| < 0x1_0000_0000 && (v.mapFile.Some? ==> Small(v.mapFile.value))
  }

  /** bitmap_write to the free-map file, when it is open. */
  function Persist(v: Volume): (r: Volume)
    requires Sane(v)
    ensures |r.disk| == |v.disk| && r == v.(disk := r.disk)
  {
    match v.mapFile
    case None => v
    case Some(d) => v.(disk := Overwrite(v.disk, FileSectors(d, v.disk), d.length, MapImage(v), 0))
  }

  /** The first clear bit at or after I. */
  function FirstFree(used: seq<bool>, i: nat): (r: Option<nat>)
    ensures r.Some? ==> i <= r.value < |used| && !used[r.value]
    ensures r.None? ==> forall j :: i <= j < |used| ==> used[j]
    decreases |used| - i
  {
    if i >= |used| then None else if !used[i] then Some(i) else FirstFree(used, i + 1)
  }

  /** free_map_allocate for one sector. */
  function TakeSector(v: Volume): (r: Option<(Word, Volume)>)
    requires Sane(v)
    ensures r.Some? ==> Sane(r.value.1) && |r.value.1.disk| == |v.disk|
  {
    match FirstFree(v.used, 0)
    case None => None
    case Some(s) => Some((s, Persist(v.(used := v.used[s := true]))))
  }

  /** free_map_release for one sector. */
  function Release(v: Volume, s: nat): (r: Volume)
    requires Sane(v) && s < |v.used|
    ensures Sane(r) && |r.disk| == |v.disk|
  {
    Persist(v.(used := v.used[s := false]))
  }

  /** The map's file is well formed, as long as the bitmap, and sector 0 is taken. */
  ghost predicate MapOk(v: Volume) {
    && Sane(v)
    && (|v.used| + |v.pad|) % 8 == 0
    && |v.used| > 0 && v.used[0]
    && (v.mapFile.Some? ==>
          && FileOk(v.disk, v.used, v.mapFile.value)
          && v.mapFile.value.length == (|v.used| + |v.pad|) / 8)
  }

  function MapOwned(v: Volume): seq<Word>
    requires Sane(v)
  {
    if v.mapFile.None? then [] else Owned(v.mapFile.value, v.disk)
  }

  /** The free-map file holds the free map; the bits past its end do not matter. */
  ghost predicate Synced(v: Volume)
    requires MapOk(v)
  {
    v.mapFile.Some? ==> exists pad :: |pad| == |v.pad| && Contents(v.mapFile.value, v.disk) == Image(v.used + pad)
  }

  /** Writing the map back touches only the map file's sectors and leaves it in step. */
  lemma PersistEffect(v: Volume)
    requires MapOk(v)
    ensures MapOk(Persist(v)) && Synced(Persist(v)) && MapOwned(Persist(v)) == MapOwned(v)
    ensures forall x :: x !in MapOwned(v) ==> Get(Persist(v).disk, x) == Get(v.disk, x)
  {
    hide Owned, Overwrite, FileOk, Image, FileSectors;
    if v.mapFile.Some? {
      FileOkSmall(v.disk, v.used, v.mapFile.value);
      var d := v.mapFile.value;
      var fs := FileSectors(d, v.disk);
      OverwriteKeepsFile(v.disk, v.used, d, MapImage(v), 0);
      FileSectorsInRange(v.disk, v.used, d);
      OverwriteOverlays(v.disk, fs, d.length, MapImage(v), 0);
      forall x | x !in MapOwned(v) ensures Get(Persist(v).disk, x) == Get(v.disk, x) {
        OwnedParts(d, v.disk);
        OverwriteFrame(v.disk, fs, d.length, MapImage(v), 0, x);
      }
    }
  }

  /** A disk that agrees on the map file's sectors has the same map file. */
  lemma DiskOutsideMap(v: Volume, disk': seq<Block>)
    requires MapOk(v) && |disk'| == |v.disk|
    requires forall x :: x in MapOwned(v) ==> Get(disk', x) == Get(v.disk, x)
    ensures var v' := v.(disk := disk');
            MapOk(v') && MapOwned(v') == MapOwned(v) && (Synced(v) ==> Synced(v'))
  {
    hide Owned, FileOk, Image, Get;
    if v.mapFile.Some? {
      FileOkSmall(v.disk, v.used, v.mapFile.value);
      MapMarked(v);
      FileFrame(v.disk, v.used, disk', v.used, v.mapFile.value);
    }
  }

  lemma MapMarked(v: Volume)
    requires MapOk(v)
    ensures Marked(v.used, MapOwned(v))
  {
  }

  lemma PutOutsideMap(v: Volume, s: nat, b: Block)
    requires MapOk(v) && s !in MapOwned(v)
    ensures var v' := v.(disk := Put(v.disk, s, b));
            MapOk(v') && MapOwned(v') == MapOwned(v) && (Synced(v) ==> Synced(v'))
  {
    hide MapOk, MapOwned, Synced;
    DiskOutsideMap(v, Put(v.disk, s, b));
  }

  lemma TakeSectorEffect(v: Volume)
    requires MapOk(v) && TakeSector(v).Some?
    ensures var (s, v') := TakeSector(v).value;
            && 0 < s < |v.used| && !v.used[s] && s !in MapOwned(v)
            && v' == v.(disk := v'.disk, used := v.used[s := true]) && |v'.disk| == |v.disk|
            && MapOk(v') && Synced(v') && MapOwned(v') == MapOwned(v)
            && (forall x :: x !in MapOwned(v) ==> Get(v'.disk, x) == Get(v.disk, x))
  {
    var (s, v') := TakeSector(v).value;
    var v1 := v.(used := v.used[s := true]);
    if v.mapFile.Some? {
      FileFrame(v.disk, v.used, v.disk, v1.used, v.mapFile.value);
    }
    PersistEffect(v1);
  }

  lemma ReleaseEffect(v: Volume, s: nat)
    requires MapOk(v) && 0 < s < |v.used| && s !in MapOwned(v)
    ensures var v' := Release(v, s);
            && v' == v.(disk := v'.disk, used := v.used[s := false]) && |v'.disk| == |v.disk|
            && MapOk(v') && Synced(v') && MapOwned(v') == MapOwned(v)
            && (forall x :: x !in MapOwned(v) ==> Get(v'.disk, x) == Get(v.disk, x))
  {
    var v1 := v.(used := v.used[s := false]);
    if v.mapFile.Some? {
      FileFrame(v.disk, v.used, v.disk, v1.used, v.mapFile.value);
    }
    PersistEffect(v1);
  }
}
