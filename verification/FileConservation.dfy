/** Which sectors a file's life costs, and what a failed allocation leaves
    behind. */
module FileConservation {
  import opened Basics
  import opened Blocks
  import opened FileData
  import opened Inodes
  import opened Volumes
  import opened Allocation
  import opened FileSystem
  import opened FileRuns

  /** Ownership of everything but file S. */
  ghost function Rest(owner: map<Word, Owner>, s: Word): map<Word, Owner> {
    map x | x in owner && owner[x] != File(s) :: owner[x]
  }

  /** Giving file S free sectors, or its own again, leaves the others' ownership. */
  lemma ChangeRest(fs: FileSys, v': Volume, s: Word, d: InodeDisk, got: seq<Word>)
    requires FileChange(fs, v', s, d, got) && s !in Rest(fs.owner, s)
    ensures Rest(WithFile(fs, v', s, d).owner, s) == Rest(fs.owner, s)
    ensures |v'.used| == |fs.vol.used|
  {
    hide MapOwned, MapOk, Synced, NoDup, Owned, FileOk, EncodeInode, Get, Contents, Inv, Kept;
    var owner' := WithFile(fs, v', s, d).owner;
    if s in fs.live { RegionOwned(fs, s); }
    forall x | x in Owned(d, v'.disk) ensures x !in Rest(fs.owner, s) {
    }
    assert Rest(owner', s) == Rest(fs.owner, s);
  }

  predicate OnFile(op: Op, s: Word) {
    !op.Create? && op.s == s
  }

  lemma StepRest(fs: FileSys, op: Op, s: Word)
    requires Inv(fs) && Enabled(fs, op) && OnFile(op, s) && s in fs.live && !Deletes(fs.open, op)
    ensures Rest(Step(fs, op).owner, s) == Rest(fs.owner, s)
    ensures |Step(fs, op).vol.used| == |fs.vol.used|
    ensures s in Step(fs, op).live
  {
    hide Inv, WriteFile, FileChange, Owned;
    if op.Write? && fs.open[s].denyWriteCnt == 0 {
      FileSmall(fs, s);
      var got := WriteChanges(fs, s, op.buf, op.off);
      var r := WriteFile(fs.vol, s, fs.live[s], op.buf, op.off);
      ChangeSmall(fs, r.vol, s, r.inode, got);
      RegionOwned(fs, s);
      ChangeRest(fs, r.vol, s, r.inode, got);
    }
  }

  lemma ChangeSmall(fs: FileSys, v': Volume, s: Word, d: InodeDisk, got: seq<Word>)
    requires FileChange(fs, v', s, d, got)
    ensures Small(d)
  {
  }

  lemma CreateRest(fs: FileSys, op: Op)
    requires Inv(fs) && Enabled(fs, op) && op.Create?
    ensures var s := NewNumber(fs, op);
            && Rest(Step(fs, op).owner, s) == fs.owner
            && |Step(fs, op).vol.used| == |fs.vol.used|
            && s in Step(fs, op).live
  {
    hide Inv, CreateFile, FileChange, Owned, CountFree;
    OwnerMarks(fs);
    FileSmall(fs, 0);
    var s := NewNumber(fs, op);
    var got := CreateChanges(fs, op.length, op.directory);
    var r := CreateFile(fs.vol, op.length, op.directory);
    ChangeSmall(fs, r.vol, s, r.inode, got);
    forall x | x in fs.owner ensures fs.owner[x] != File(s) {
      if fs.owner[x].File? { OwnerRegion(fs, x); }
    }
    assert Rest(fs.owner, s) == fs.owner;
    ChangeRest(fs, r.vol, s, r.inode, got);
  }

  /** Two consistent states with the same owned sectors have the same free map. */
  lemma MapFromOwners(fs: FileSys, fs': FileSys, extra: set<Word>)
    requires Inv(fs) && Inv(fs') && |fs.vol.used| == |fs'.vol.used|
    requires fs'.owner.Keys == fs.owner.Keys + extra
    ensures forall x :: 0 <= x < |fs.vol.used| ==> (fs'.vol.used[x] <==> fs.vol.used[x] || x in extra)
  {
    hide Inv;
    OwnerMarks(fs);
    OwnerMarks(fs');
  }

  lemma DeleteOwners(fs: FileSys, s: Word)
    requires Inv(fs) && s in fs.live && s != 0
    ensures var d := fs.live[s];
            var fs' := DoDelete(fs, s);
            && |fs'.vol.used| == |fs.vol.used|
            && Small(d)
            && fs'.owner.Keys == Rest(fs.owner, s).Keys + (if Sectors(d.length) > 123 then {d.indirect} else {})
            && (Sectors(d.length) > 123 ==> d.indirect !in Rest(fs.owner, s) && d.indirect < |fs.vol.used|)
  {
    hide Inv, ReleaseAll, MapOk, MapOwned, Synced, FileOk, Owned, Get, EncodeInode;
    OwnerMarks(fs);
    RegionOwned(fs, s);
    ReleasedMarked(fs, s);
    ReleaseAllEffect(fs.vol, Released(s, fs.live[s], fs.vol.disk));
    OwnedParts(fs.live[s], fs.vol.disk);
  }

  /** A run that creates a file, uses it, and ends by closing it for the last time. */
  ghost predicate FileLife(trace: seq<FileSys>, ops: seq<Op>, s: Word) {
    var n := |ops|;
    && IsRun(trace, ops) && n >= 2 && Inv(trace[0])
    && ops[0].Create? && NewNumber(trace[0], ops[0]) == s
    && (forall i :: 0 < i < n ==> OnFile(ops[i], s))
    && (forall i :: 0 < i < n - 1 ==> !Deletes(trace[i].open, ops[i]))
    && Deletes(trace[n - 1].open, ops[n - 1])
  }

  lemma {:induction false} LifeOwners(trace: seq<FileSys>, ops: seq<Op>, s: Word, k: nat)
    requires FileLife(trace, ops, s) && 1 <= k < |ops|
    ensures Rest(trace[k].owner, s) == trace[0].owner
    ensures |trace[k].vol.used| == |trace[0].vol.used|
    ensures s in trace[k].live
  {
    hide Inv, Step, Enabled, NewNumber, Rest, Deletes;
    RunInv(trace, ops, k - 1);
    assert trace[k] == trace[(k - 1) + 1];
    if k == 1 {
      CreateRest(trace[0], ops[0]);
    } else {
      LifeOwners(trace, ops, s, k - 1);
      StepRest(trace[k - 1], ops[k - 1], s);
    }
  }

  /** Conservation: after create, any writes, remove and the last close the free
      map is exactly what it was, if and only if the file ended with at most 123
      sectors; otherwise one sector, its index sector, stays marked. */
  lemma Conservation(trace: seq<FileSys>, ops: seq<Op>, s: Word)
    requires FileLife(trace, ops, s)
    ensures s in trace[|ops| - 1].live
    ensures var d := trace[|ops| - 1].live[s];
            var before, after := trace[0].vol.used, trace[|ops|].vol.used;
            && (after == before <==> Sectors(d.length) <= 123)
            && (Sectors(d.length) > 123 ==>
                  d.indirect < |before| && !before[d.indirect] && after == before[d.indirect := true])
  {
    hide Inv, Rest, DoDelete, FileLife;
    LifeEnds(trace, ops, s);
    var n := |ops|;
    var fs, fs' := trace[n - 1], trace[n];
    DeleteOwners(fs, s);
    DeleteInv(fs, s);
    var d := fs.live[s];
    MapFromOwners(trace[0], fs', if Sectors(d.length) > 123 then {d.indirect} else {});
    OwnerMarks(trace[0]);
    if Sectors(d.length) <= 123 {
      assert fs'.vol.used == trace[0].vol.used;
    } else {
      assert fs'.vol.used == trace[0].vol.used[d.indirect := true];
    }
  }

  /** The last call of a file's life deletes it, with everything else owned as at the start. */
  lemma LifeEnds(trace: seq<FileSys>, ops: seq<Op>, s: Word)
    requires FileLife(trace, ops, s)
    ensures |ops| >= 2 && |trace| == |ops| + 1
    ensures var fs := trace[|ops| - 1];
            && Inv(trace[0]) && Inv(fs) && s in fs.live && s != 0 && trace[|ops|] == DoDelete(fs, s)
            && Rest(fs.owner, s) == trace[0].owner && |fs.vol.used| == |trace[0].vol.used|
  {
    hide Inv, Enabled, NewNumber, Rest, DoDelete, DoWrite, DoCreate, Reopened;
    var n := |ops|;
    LifeOwners(trace, ops, s, n - 1);
    RunInv(trace, ops, n - 1);
    RunInv(trace, ops, 0);
    assert trace[n] == trace[(n - 1) + 1];
    LifeNumber(trace, ops, s);
  }

  lemma LifeNumber(trace: seq<FileSys>, ops: seq<Op>, s: Word)
    requires FileLife(trace, ops, s)
    ensures s != 0
  {
    hide Inv, Step, NewNumber;
    RunInv(trace, ops, 0);
    StepRefines(trace[0], ops[0]);
  }

  ghost predicate Full(used: seq<bool>) {
    forall x :: 0 <= x < |used| ==> used[x]
  }

  lemma FailedFill(v: Volume, d: InodeDisk, table: Table, k: nat, n: nat)
    requires MapOk(v) && NonzeroUpTo(table, k) && k <= n <= 128
    requires !FillIndirect(v, d, table, n).ok
    ensures Full(FillIndirect(v, d, table, n).vol.used)
  {
    hide MapOk, Encode;
    MapOkSane(v);
    AllocTableTakes(v, table, 0, k, n);
    TakeZeroedEffect(v, n - k);
  }

  lemma FailedNewIndirect(v: Volume, d: InodeDisk, n: nat, m: nat)
    requires MapOk(v) && NonzeroUpTo(d.direct, n) && d.indirect == 0 && n <= 123 < m <= 251
    requires !AllocInode(v, d, m).ok
    ensures Full(AllocInode(v, d, m).vol.used)
  {
    hide MapOk, FillIndirect, TakeZeroed, Effect, NoSectors, Fill;
    MapOkSane(v);
    AllocTableTakes(v, d.direct, 0, n, 123);
    TakeZeroedEffect(v, 123 - n);
    var t := TakeZeroed(v, 123 - n);
    EffectMapOk(v, t.vol, t.got, []);
    assert |t.vol.used| == |v.used| by { EffectSize(v, t.vol, t.got, []); }
    if |t.got| == 123 - n && TakeSector(t.vol).Some? {
      TakeSectorEffect(t.vol);
      NoSectorsZero();
      var (s, v2) := TakeSector(t.vol).value;
      var d1 := d.(direct := AllocTable(v, d.direct, 0, 123).table, indirect := s);
      FailedFill(v2, d1, NoSectors(), 0, m - 123);
    }
  }

  lemma EffectSize(v: Volume, v': Volume, got: seq<Word>, touched: seq<Word>)
    requires Effect(v, v', got, touched)
    ensures |v'.used| == |v.used|
  {
  }

  /** A failed growth has taken every sector that was free, and gives none back:
      the free map survives it only if the disk was full to begin with. */
  lemma FailedGrowthFillsDisk(v: Volume, d: InodeDisk, m: nat)
    requires MapOk(v) && FileOk(v.disk, v.used, d) && Sectors(d.length) <= m <= 251
    requires !AllocInode(v, d, m).ok
    ensures Full(AllocInode(v, d, m).vol.used)
    ensures AllocInode(v, d, m).vol.used == v.used <==> CountFree(v.used) == 0
  {
    hide MapOk, FillIndirect, TakeZeroed, TakeSector, Decode, SlackZero, NoDup, Owned, Marked, Get, NonzeroUpTo, Effect;
    MapOkSane(v);
    var n := Sectors(d.length);
    CountFreeNone(v.used);
    AllocSize(v, d, m);
    if n > 123 {
      AllDirect(d.direct, n);
      AllocFullDirect(v, d, m);
      FailedFill(v, d, Decode(Get(v.disk, d.indirect)), n - 123, m - 123);
    } else if m <= 123 {
      AllocTableTakes(v, d.direct, 0, n, m);
      TakeZeroedEffect(v, m - n);
      EffectSize(v, TakeZeroed(v, m - n).vol, TakeZeroed(v, m - n).got, []);
    } else {
      FailedNewIndirect(v, d, n, m);
    }
  }

  lemma {:induction false} AllocTableSize(v: Volume, table: seq<Word>, i: nat, n: nat)
    requires Sane(v) && n <= |table|
    ensures |AllocTable(v, table, i, n).vol.used| == |v.used|
    decreases n - i
  {
    hide FirstFree, Persist;
    if i < n {
      if table[i] != 0 {
        AllocTableSize(v, table, i + 1, n);
      } else if TakeCleared(v).Some? {
        var (s, v1) := TakeCleared(v).value;
        AllocTableSize(v1, table[i := s], i + 1, n);
      }
    }
  }

  lemma AllocSize(v: Volume, d: InodeDisk, m: nat)
    requires Sane(v) && m <= 251
    ensures |AllocInode(v, d, m).vol.used| == |v.used|
  {
    hide AllocTable, Decode, Encode, FirstFree, Persist;
    var di := if m > 123 then 123 else m;
    AllocTableSize(v, d.direct, 0, di);
    var t := AllocTable(v, d.direct, 0, di);
    if m > 123 && t.ok {
      if d.indirect != 0 {
        AllocTableSize(t.vol, Decode(Get(t.vol.disk, d.indirect)), 0, m - 123);
      } else if TakeSector(t.vol).Some? {
        AllocTableSize(TakeSector(t.vol).value.1, NoSectors(), 0, m - 123);
      }
    }
  }
}
