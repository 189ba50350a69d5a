/** What the table of openers means over whole runs, in terms of the calls made:
    how many openers a file has, whether its writes are denied, whether it has
    been removed, and at which call it goes away. */
module FileOpeners {
  import opened Blocks
  import opened Inodes
  import opened Volumes
  import opened Allocation
  import opened FileSystem
  import opened FileRuns

  /** How many of the calls are OP. */
  ghost function Times(ops: seq<Op>, op: Op): nat {
    if ops == [] then 0 else Times(ops[..|ops| - 1], op) + if ops[|ops| - 1] == op then 1 else 0
  }

  /** Openers of file S at the start of a run. */
  ghost function AtStart(fs: FileSys, s: Word): nat {
    if s in fs.open then fs.open[s].openCnt else 0
  }

  /** Openers of file S after the calls, when it had N before: openings less closings. */
  ghost function Openers(ops: seq<Op>, s: Word, n: nat): int {
    n + Times(ops, Open(s)) - Times(ops, Close(s))
  }

  /** Just after the last call that opened S while it had no openers; 0 if there was none. */
  ghost function Since(ops: seq<Op>, s: Word, n: nat): (k: nat)
    ensures k <= |ops|
  {
    if ops == [] then 0
    else if ops[|ops| - 1] == Open(s) && Openers(ops[..|ops| - 1], s, n) == 0 then |ops|
    else Since(ops[..|ops| - 1], s, n)
  }

  /** Denials of writes to S less allowances, since S was last opened from zero. */
  ghost function Denials(fs: FileSys, ops: seq<Op>, s: Word): int {
    var k := Since(ops, s, AtStart(fs, s));
    (if k == 0 && s in fs.open then fs.open[s].denyWriteCnt else 0) + Times(ops[k..], DenyWrite(s)) - Times(ops[k..], AllowWrite(s))
  }

  /** S has been removed since it was last opened from zero. */
  ghost predicate Removed(fs: FileSys, ops: seq<Op>, s: Word) {
    var k := Since(ops, s, AtStart(fs, s));
    (k == 0 && s in fs.open && fs.open[s].removed) || Remove(s) in ops[k..]
  }

  /** The table FS' after OPS says of S what the calls amount to. */
  ghost predicate Tallies(fs: FileSys, ops: seq<Op>, s: Word, fs': FileSys) {
    var n := Openers(ops, s, AtStart(fs, s));
    && n >= 0 && (s in fs'.open <==> n > 0)
    && (s in fs'.open ==> fs'.open[s] == OpenInode(n, Removed(fs, ops, s), fs'.open[s].denyWriteCnt))
    && (s in fs'.open ==> fs'.open[s].denyWriteCnt == Denials(fs, ops, s))
  }

  lemma TimesNext(ops: seq<Op>, last: Op, op: Op)
    ensures Times(ops + [last], op) == Times(ops, op) + if last == op then 1 else 0
  {
    assert (ops + [last])[..|ops|] == ops;
  }

  lemma SinceNext(ops: seq<Op>, last: Op, s: Word, n: nat)
    ensures Since(ops + [last], s, n)
            == if last == Open(s) && Openers(ops, s, n) == 0 then |ops| + 1 else Since(ops, s, n)
  {
    assert (ops + [last])[..|ops|] == ops;
  }

  /** The openers, removal and denials after one more call. */
  lemma TallyNext(fs: FileSys, ops: seq<Op>, last: Op, s: Word)
    ensures var n := Openers(ops, s, AtStart(fs, s));
            var first := last == Open(s) && n == 0;
            && Openers(ops + [last], s, AtStart(fs, s))
               == n + (if last == Open(s) then 1 else 0) - (if last == Close(s) then 1 else 0)
            && (Removed(fs, ops + [last], s) <==> !first && (Removed(fs, ops, s) || last == Remove(s)))
            && Denials(fs, ops + [last], s)
               == if first then 0
                  else Denials(fs, ops, s) + (if last == DenyWrite(s) then 1 else 0) - (if last == AllowWrite(s) then 1 else 0)
  {
    hide Times, Since;
    var ops' := ops + [last];
    TimesNext(ops, last, Open(s));
    TimesNext(ops, last, Close(s));
    SinceNext(ops, last, s, AtStart(fs, s));
    var k, k' := Since(ops, s, AtStart(fs, s)), Since(ops', s, AtStart(fs, s));
    if k' == k {
      assert ops'[k..] == ops[k..] + [last];
      TimesNext(ops[k..], last, DenyWrite(s));
      TimesNext(ops[k..], last, AllowWrite(s));
    } else {
      assert ops'[k'..] == [];
      NoTimes(DenyWrite(s));
      NoTimes(AllowWrite(s));
    }
  }

  lemma NoTimes(op: Op)
    ensures Times([], op) == 0
  {
  }

  lemma StartTallies(fs: FileSys, s: Word)
    requires Inv(fs)
    ensures Tallies(fs, [], s, fs)
  {
    hide Inv;
    OpenFacts(fs);
  }

  /** What a call does to the table of openers, whatever else it does. */
  lemma StepOpen(fs: FileSys, op: Op)
    requires Inv(fs) && Enabled(fs, op)
    ensures Step(fs, op).open == Reopened(fs.open, op)
  {
    hide Inv, DoCreate, DoWrite, DoDelete, CanCreate, Fits;
    OpenFacts(fs);
    match op {
      case Create(length, directory) => CreateOpen(fs, length, directory);
      case Write(s, buf, off) => if fs.open[s].denyWriteCnt == 0 { WriteOpen(fs, s, buf, off); }
      case Close(s) => if Deletes(fs.open, op) { DeleteOpen(fs, s); }
      case _ =>
    }
  }

  lemma StepTallies(fs0: FileSys, ops: seq<Op>, fs: FileSys, op: Op, s: Word)
    requires Inv(fs) && Enabled(fs, op) && s != 0 && Tallies(fs0, ops, s, fs)
    ensures Tallies(fs0, ops + [op], s, Step(fs, op))
  {
    hide Inv, Step, Openers, Removed, Denials, CanCreate, CanWrite;
    StepOpen(fs, op);
    TallyNext(fs0, ops, op, s);
  }

  /** Over every run, for every file: its openers are its openings less its closings, and it is
      in the table exactly when there are any; writes to it are denied as many times as they
      have been denied less allowed since it was last opened from zero; and it is marked
      removed exactly when it has been removed since then. */
  lemma {:induction false} RunTallies(trace: seq<FileSys>, ops: seq<Op>, k: nat, s: Word)
    requires IsRun(trace, ops) && Inv(trace[0]) && k <= |ops| && s != 0
    ensures Tallies(trace[0], ops[..k], s, trace[k])
  {
    hide Inv, Step, Enabled, Tallies;
    if k == 0 {
      StartTallies(trace[0], s);
    } else {
      RunTallies(trace, ops, k - 1, s);
      RunInv(trace, ops, k - 1);
      assert trace[k] == trace[(k - 1) + 1];
      StepTallies(trace[0], ops[..k - 1], trace[k - 1], ops[k - 1], s);
      assert ops[..k] == ops[..k - 1] + [ops[k - 1]];
    }
  }

  /** A file goes away at a call exactly when that call closes it for its last opener and it has
      been removed since it was last opened from zero. */
  lemma FileGoes(trace: seq<FileSys>, ops: seq<Op>, k: nat, s: Word)
    requires IsRun(trace, ops) && Inv(trace[0]) && k < |ops|
    ensures Inv(trace[k]) && Inv(trace[k + 1])
    ensures s in View(trace[k]).files && s !in View(trace[k + 1]).files
            <==> s != 0 && ops[k] == Close(s) && Openers(ops[..k], s, AtStart(trace[0], s)) == 1 && Removed(trace[0], ops[..k], s)
  {
    hide Inv, Step, Openers, Removed, Denials, CanCreate, CanWrite, Files;
    RunInv(trace, ops, k);
    RunInv(trace, ops, k + 1);
    var fs, op := trace[k], ops[k];
    if s != 0 { RunTallies(trace, ops, k, s); }
    OpenFacts(fs);
    OpenFacts(trace[k + 1]);
    StepRefines(fs, op);
  }

  /** A file comes at a call exactly when that call creates it. */
  lemma FileComes(trace: seq<FileSys>, ops: seq<Op>, k: nat, s: Word)
    requires IsRun(trace, ops) && Inv(trace[0]) && k < |ops|
    ensures Inv(trace[k]) && Inv(trace[k + 1])
    ensures s !in View(trace[k]).files && s in View(trace[k + 1]).files
            <==> ops[k].Create? && s == NewNumber(trace[k], ops[k])
  {
    hide Inv, Step, CanCreate, CanWrite, Files, NewNumber;
    RunInv(trace, ops, k);
    RunInv(trace, ops, k + 1);
    OpenFacts(trace[k]);
    StepRefines(trace[k], ops[k]);
  }

  /** A write changes its file, or returns anything but 0 for a nonempty buffer, only while no
      denial is outstanding. */
  lemma DeniedWrites(trace: seq<FileSys>, ops: seq<Op>, k: nat, s: Word)
    requires IsRun(trace, ops) && Inv(trace[0]) && k < |ops| && ops[k].Write? && ops[k].s == s
    requires Denials(trace[0], ops[..k], s) > 0
    ensures trace[k + 1] == trace[k]
    ensures Inv(trace[k]) && Enabled(trace[k], ops[k]) && Answer(trace[k], ops[k]) == Count(0)
  {
    hide Inv, Openers, Removed, Denials, DoWrite;
    RunInv(trace, ops, k);
    RunTallies(trace, ops, k, s);
  }

  /** A new inode is of the kind asked for, and no call changes the kind of a file. */
  lemma StepKinds(fs: FileSys, op: Op, s: Word)
    requires Inv(fs) && Enabled(fs, op)
    ensures var fs' := Step(fs, op);
            && (s in fs.live && s in fs'.live ==>
                  fs'.live[s].directory == fs.live[s].directory && fs'.live[s].magic == fs.live[s].magic)
            && (op.Create? && s == NewNumber(fs, op) ==>
                  s in fs'.live && fs'.live[s].directory == op.directory && fs'.live[s].magic == INODE_MAGIC)
  {
    hide Inv, WriteFile, CreateFile, CountFree, Owned, DoWrite, DoDelete, Fits;
    OwnerMarks(fs);
    match op {
      case Create(length, directory) =>
        FileSmall(fs, 0);
        CreateKind(fs, length, directory);
      case Write(t, buf, off) =>
        if fs.open[t].denyWriteCnt == 0 {
          WriteKind(fs, t, buf, off);
        }
      case Close(t) => DeleteLive(fs, t);
      case _ =>
    }
  }

  lemma WriteKind(fs: FileSys, t: Word, buf: seq<Byte>, off: nat)
    requires Inv(fs) && CanWrite(fs, t, |buf|, off)
    ensures var fs' := DoWrite(fs, t, buf, off);
            && fs'.live.Keys == fs.live.Keys && fs'.live == fs.live[t := fs'.live[t]]
            && fs'.live[t].directory == fs.live[t].directory && fs'.live[t].magic == fs.live[t].magic
  {
    hide Inv, WriteFile, CountFree, Owned, Writable;
    FileSmall(fs, t);
    FileWritable(fs, t);
    var got := WriteFileEffect(fs.vol, t, fs.live[t], buf, off);
  }

  lemma DeleteLive(fs: FileSys, s: Word)
    requires Inv(fs) && s in fs.live && s != 0
    ensures DoDelete(fs, s).live == fs.live - {s}
  {
    hide Inv, ReleaseAll;
  }

  lemma CreateKind(fs: FileSys, length: Length, directory: bool)
    requires Inv(fs) && CanCreate(fs.vol, length) && Sane(fs.vol) && length <= 251 * 512
    ensures var r := CreateFile(fs.vol, length, directory);
            && Small(r.inode) && r.sector !in fs.live && r.inode.directory == directory && r.inode.magic == INODE_MAGIC
  {
    hide Inv, CreateFile, CountFree, FileChange, FileOk;
    OwnerMarks(fs);
    var got := CreateEffect(fs.vol, length, directory);
    var r := CreateFile(fs.vol, length, directory);
    FileOkSmall(r.vol.disk, r.vol.used, r.inode);
    var g := CreateChanges(fs, length, directory);
  }

  /** Which calls the machine serves, in a consistent state: every file can be opened, every open
      file read anywhere, removed and closed, and written anywhere while that is denied; a write
      that is not denied, and a create, exactly when they end within 251 sectors and enough
      sectors are free. */
  lemma CallsServed(fs: FileSys, s: Word)
    requires Inv(fs) && s in View(fs).files
    ensures Enabled(fs, Open(s))
    ensures s in fs.open ==> Enabled(fs, Remove(s)) && Enabled(fs, Close(s))
    ensures s in fs.open ==> forall size, off :: Enabled(fs, Read(s, size, off))
    ensures s in fs.open ==> forall buf, off ::
              Enabled(fs, Write(s, buf, off)) <==> fs.open[s].denyWriteCnt > 0 || Fits(fs.vol, fs.live[s], |buf|, off)
    ensures s in fs.open ==> (Enabled(fs, DenyWrite(s)) <==> fs.open[s].denyWriteCnt < fs.open[s].openCnt)
    ensures s in fs.open ==> (Enabled(fs, AllowWrite(s)) <==> 0 < fs.open[s].denyWriteCnt <= fs.open[s].openCnt)
  {
    hide Inv, Fits, Files;
    OpenFacts(fs);
  }

  lemma CreateServed(fs: FileSys, length: Length, directory: bool)
    ensures Enabled(fs, Create(length, directory))
            <==> length <= 251 * 512 && 1 + Needed(0, Sectors(length)) <= CountFree(fs.vol.used)
  {
    hide CountFree, Needed;
  }
}
