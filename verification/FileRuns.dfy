/** Whole runs of the file system, and the plain map of byte sequences that
    every run of it implements. */
module FileRuns {
  import opened Blocks
  import opened FileData
  import opened Inodes
  import opened Volumes
  import opened Allocation
  import opened FileSystem

  datatype Op =
    | Create(length: Length, directory: bool)
    | Open(s: Word)
    | Write(s: Word, buf: seq<Byte>, off: nat)
    | Remove(s: Word)
    | Close(s: Word)
    | DenyWrite(s: Word)
    | AllowWrite(s: Word)
    | Read(s: Word, size: int, off: nat)

  /** What a call gives back. */
  datatype Reply = Done | Number(inode: Word) | Count(written: nat) | Data(bytes: seq<Byte>)

  /** The files and openers a user of the file system sees. */
  datatype Abstract = Abstract(files: map<Word, seq<Byte>>, open: map<Word, OpenInode>)

  ghost function View(fs: FileSys): Abstract
    requires Inv(fs)
  {
    Abstract(Files(fs), fs.open - {0})
  }

  /** What callers guarantee, and that no allocation runs out of sectors. */
  ghost predicate Enabled(fs: FileSys, op: Op) {
    match op
    case Create(length, _) => CanCreate(fs.vol, length)
    case Open(s) => s in fs.live && s != 0
    case Write(s, buf, off) =>
      && s in fs.live && s in fs.open && s != 0
      && (fs.open[s].denyWriteCnt > 0 || CanWrite(fs, s, |buf|, off))
    case Remove(s) => s in fs.open && s != 0
    case Close(s) => s in fs.open && s in fs.live && s != 0
    case DenyWrite(s) => s in fs.open && s != 0 && fs.open[s].denyWriteCnt < fs.open[s].openCnt
    case AllowWrite(s) => s in fs.open && s != 0 && 0 < fs.open[s].denyWriteCnt <= fs.open[s].openCnt
    case Read(s, _, _) => s in fs.open && s in fs.live && s != 0
  }

  /** The open-inode table after a call that does not touch the volume. */
  function Reopened(open: map<Word, OpenInode>, op: Op): map<Word, OpenInode> {
    match op
    case Open(s) =>
      if s in open then open[s := open[s].(openCnt := open[s].openCnt + 1)]
      else open[s := OpenInode(1, false, 0)]
    case Remove(s) => if s in open then open[s := open[s].(removed := true)] else open
    case DenyWrite(s) => if s in open then open[s := open[s].(denyWriteCnt := open[s].denyWriteCnt + 1)] else open
    case AllowWrite(s) =>
      if s in open && open[s].denyWriteCnt > 0 then open[s := open[s].(denyWriteCnt := open[s].denyWriteCnt - 1)] else open
    case Close(s) =>
      if s !in open then open
      else if open[s].openCnt <= 1 then open - {s}
      else open[s := open[s].(openCnt := open[s].openCnt - 1)]
    case _ => open
  }

  /** A close that deletes the file: the last opener of a removed inode. */
  predicate Deletes(open: map<Word, OpenInode>, op: Op) {
    op.Close? && op.s in open && open[op.s].openCnt <= 1 && open[op.s].removed
  }

  ghost function Step(fs: FileSys, op: Op): FileSys
    requires Inv(fs) && Enabled(fs, op)
  {
    match op
    case Create(length, directory) => DoCreate(fs, length, directory)
    case Write(s, buf, off) => if fs.open[s].denyWriteCnt > 0 then fs else DoWrite(fs, s, buf, off)
    case Close(s) => if Deletes(fs.open, op) then DoDelete(fs, s) else fs.(open := Reopened(fs.open, op))
    case _ => fs.(open := Reopened(fs.open, op))
  }

  /** The same step on byte sequences; NUMBER is the inode number a create returned. */
  ghost function AbstractStep(a: Abstract, op: Op, number: Word): Abstract {
    match op
    case Create(length, _) => a.(files := a.files[number := ZeroExtend([], length)])
    case Write(s, buf, off) =>
      if s !in a.files || s !in a.open || a.open[s].denyWriteCnt > 0 then a
      else a.(files := a.files[s := Written(a.files[s], buf, off)])
    case Close(s) => Abstract(if Deletes(a.open, op) then a.files - {s} else a.files, Reopened(a.open, op))
    case _ => a.(open := Reopened(a.open, op))
  }

  /** The inode number a create hands out. */
  ghost function NewNumber(fs: FileSys, op: Op): Word
    requires Inv(fs)
  {
    OwnerMarks(fs); FileSmall(fs, 0);
    if op.Create? && op.length <= 251 * 512 then CreateFile(fs.vol, op.length, op.directory).sector else 0
  }

  /** The SIZE bytes at OFF of a file, cut at its end. */
  function Slice(contents: seq<Byte>, size: int, off: nat): (r: seq<Byte>)
    ensures |r| == Moved(|contents|, size, off)
  {
    if off <= |contents| then contents[off..off + Moved(|contents|, size, off)] else []
  }

  /** That is, as many bytes as were asked for and are there, each from its own place. */
  lemma SliceBytes(contents: seq<Byte>, size: int, off: nat)
    ensures var r := Slice(contents, size, off);
            && |r| == (if size <= 0 || off >= |contents| then 0 else if size < |contents| - off then size else |contents| - off)
            && forall i :: 0 <= i < |r| ==> r[i] == contents[off + i]
  {
  }

  /** The reply of the file system to a call. */
  ghost function Answer(fs: FileSys, op: Op): Reply
    requires Inv(fs) && Enabled(fs, op)
  {
    match op
    case Create(_, _) => Number(NewNumber(fs, op))
    case Write(s, buf, off) =>
      FileSmall(fs, s);
      Count(if fs.open[s].denyWriteCnt > 0 then 0 else WriteFile(fs.vol, s, fs.live[s], buf, off).written)
    case Read(s, size, off) =>
      FileSmall(fs, s);
      Data(Slice(Contents(fs.live[s], fs.vol.disk), size, off))
    case _ => Done
  }

  /** The reply of the byte-sequence machine.  A write counts all its bytes, but one that
      ends one byte past the end of the file is cut short by that byte. */
  ghost function AbstractAnswer(a: Abstract, op: Op, number: Word): Reply {
    match op
    case Create(_, _) => Number(number)
    case Write(s, buf, off) =>
      if s !in a.files || s !in a.open || a.open[s].denyWriteCnt > 0 then Count(0)
      else Count(if buf != [] && off + |buf| == |a.files[s]| + 1 then |buf| - 1 else |buf|)
    case Read(s, size, off) => Data(if s in a.files then Slice(a.files[s], size, off) else [])
    case _ => Done
  }

  /** The bytes a read returns and the count a write returns are those of the byte-sequence
      machine, whatever sectors the file lies in. */
  lemma AnswerRefines(fs: FileSys, op: Op)
    requires Inv(fs) && Enabled(fs, op)
    ensures Answer(fs, op) == AbstractAnswer(View(fs), op, NewNumber(fs, op))
  {
    hide Inv, CreateFile, CanCreate, WriteFile, CountFree, Fits, Slice, FileOk, EncodeInode, Writable;
    OpenFacts(fs);
    if op.Write? && fs.open[op.s].denyWriteCnt == 0 {
      FileSmall(fs, op.s);
      FileWritable(fs, op.s);
      var got := WriteFileEffect(fs.vol, op.s, fs.live[op.s], op.buf, op.off);
    }
  }

  /** Only the open-inode table changes, so the rest of the invariant carries over. */
  lemma OpenTableInv(fs: FileSys, open: map<Word, OpenInode>)
    requires Inv(fs) && open.Keys <= fs.live.Keys && (forall s :: s in open ==> open[s].openCnt > 0)
    requires 0 in open && !open[0].removed
    ensures Inv(fs.(open := open)) && Files(fs.(open := open)) == Files(fs)
  {
    hide MapOk, Synced, FileOk, Owned, EncodeInode, Get, Contents;
    var fs' := fs.(open := open);
    assert forall s :: Region(fs', s) == Region(fs, s);
    forall s | s in fs'.live ensures FileInv(fs', s) {
      assert FileInv(fs, s);
    }
  }

  lemma ReopenInv(fs: FileSys, op: Op)
    requires Inv(fs) && Enabled(fs, op) && !op.Create? && !op.Write? && !Deletes(fs.open, op)
    ensures var fs' := fs.(open := Reopened(fs.open, op)); Inv(fs') && Files(fs') == Files(fs)
  {
    hide Inv, Files;
    OpenFacts(fs);
    OpenTableInv(fs, Reopened(fs.open, op));
  }

  /** One call keeps the invariant and acts on the files as on byte sequences:
      a write changes one file's bytes, nothing changes any other file. */
  lemma StepRefines(fs: FileSys, op: Op)
    requires Inv(fs) && Enabled(fs, op)
    ensures Inv(Step(fs, op))
    ensures View(Step(fs, op)) == AbstractStep(View(fs), op, NewNumber(fs, op))
    ensures op.Create? ==> NewNumber(fs, op) != 0 && NewNumber(fs, op) !in fs.live
  {
    hide Inv, Files, DoCreate, DoWrite, DoDelete, CreateFile, CanCreate, Written, ZeroExtend, CountFree, Fits, Sane, Small;
    OpenFacts(fs);
    match op {
      case Create(length, directory) =>
        assert length <= 251 * 512 by { CanCreateSmall(fs.vol, length); }
        CreateInv(fs, length, directory);
        CreateOpen(fs, length, directory);
      case Write(s, buf, off) =>
        if fs.open[s].denyWriteCnt == 0 {
          WriteInv(fs, s, buf, off);
          WriteOpen(fs, s, buf, off);
        }
      case Close(s) =>
        if Deletes(fs.open, op) {
          DeleteInv(fs, s);
          DeleteOpen(fs, s);
        } else {
          ReopenInv(fs, op);
        }
      case _ =>
        ReopenInv(fs, op);
    }
  }

  lemma OpenFacts(fs: FileSys)
    requires Inv(fs)
    ensures forall s :: s in fs.open && s != 0 ==> s in fs.live && s in Files(fs)
    ensures forall s :: s in Files(fs) <==> s in fs.live && s != 0
    ensures forall s :: s in fs.open ==> fs.open[s].openCnt > 0
    ensures fs.open.Keys <= fs.live.Keys && 0 in fs.open && !fs.open[0].removed
  {
  }

  lemma CanCreateSmall(v: Volume, length: Length)
    requires CanCreate(v, length)
    ensures length <= 251 * 512
  {
  }

  lemma CreateOpen(fs: FileSys, length: Length, directory: bool)
    requires Inv(fs) && CanCreate(fs.vol, length)
    ensures DoCreate(fs, length, directory).open == fs.open
  {
    hide CreateFile, Inv, CountFree;
  }

  lemma WriteOpen(fs: FileSys, s: Word, buf: seq<Byte>, off: nat)
    requires Inv(fs) && CanWrite(fs, s, |buf|, off)
    ensures DoWrite(fs, s, buf, off).open == fs.open
  {
    hide WriteFile, Inv, CountFree;
  }

  lemma DeleteOpen(fs: FileSys, s: Word)
    requires Inv(fs) && s in fs.live && s != 0
    ensures DoDelete(fs, s).open == fs.open - {s}
  {
    hide ReleaseAll, Inv;
  }

  /** TRACE is a run: each state follows from the one before by the next call, for as long
      as the states are consistent, which RunInv shows to be always. */
  ghost predicate IsRun(trace: seq<FileSys>, ops: seq<Op>) {
    && |trace| == |ops| + 1
    && (forall i :: 0 <= i < |ops| && Inv(trace[i]) ==> Follows(trace[i], ops[i], trace[i + 1]))
  }

  ghost predicate Follows(fs: FileSys, op: Op, fs': FileSys)
    requires Inv(fs)
  {
    Enabled(fs, op) && fs' == Step(fs, op)
  }

  /** Every state of a run from a consistent state is consistent. */
  lemma {:induction false} RunInv(trace: seq<FileSys>, ops: seq<Op>, k: nat)
    requires IsRun(trace, ops) && Inv(trace[0]) && k <= |ops|
    ensures Inv(trace[k])
    ensures k < |ops| ==> Follows(trace[k], ops[k], trace[k + 1])
  {
    hide Inv, Step, Enabled, View, AbstractStep;
    if k > 0 {
      RunInv(trace, ops, k - 1);
      assert trace[k] == trace[(k - 1) + 1];
      StepRefines(trace[k - 1], ops[k - 1]);
    }
  }

  /** The abstract machine run on the same calls with the same inode numbers. */
  ghost function AbstractRun(a: Abstract, ops: seq<Op>, numbers: seq<Word>): Abstract
    requires |numbers| == |ops|
  {
    if ops == [] then a
    else AbstractStep(AbstractRun(a, ops[..|ops| - 1], numbers[..|ops| - 1]), ops[|ops| - 1], numbers[|ops| - 1])
  }

  /** The inode numbers that the creates of a run hand out. */
  ghost function Numbers(trace: seq<FileSys>, ops: seq<Op>): (r: seq<Word>)
    requires |trace| == |ops| + 1
    ensures |r| == |ops|
  {
    seq(|ops|, i requires 0 <= i < |ops| => if Inv(trace[i]) then NewNumber(trace[i], ops[i]) else 0)
  }

  /** Every run from a consistent state ends in one, and what users can see at
      the end is what the byte-sequence machine computes. */
  lemma {:induction false} RunRefines(trace: seq<FileSys>, ops: seq<Op>)
    requires IsRun(trace, ops) && Inv(trace[0])
    ensures Inv(trace[|ops|])
    ensures View(trace[|ops|]) == AbstractRun(View(trace[0]), ops, Numbers(trace, ops))
    decreases |ops|
  {
    hide Inv, View, AbstractStep, Step, Enabled, NewNumber;
    if ops != [] {
      var n := |ops| - 1;
      var t, o := trace[..n + 1], ops[..n];
      assert t[0] == trace[0] && t[n] == trace[n];
      assert IsRun(t, o);
      RunRefines(t, o);
      assert Numbers(trace, ops)[..n] == Numbers(t, o);
      RunInv(trace, ops, n);
      assert Follows(trace[n], ops[n], trace[n + 1]);
      StepRefines(trace[n], ops[n]);
    }
  }

  /** Every reply of a run is the one the byte-sequence machine gives at that point: a read
      returns what the calls before it have written, and nothing else. */
  lemma RunAnswers(trace: seq<FileSys>, ops: seq<Op>, k: nat)
    requires IsRun(trace, ops) && Inv(trace[0]) && k < |ops|
    ensures Inv(trace[k]) && Enabled(trace[k], ops[k])
    ensures Answer(trace[k], ops[k])
            == AbstractAnswer(AbstractRun(View(trace[0]), ops[..k], Numbers(trace, ops)[..k]), ops[k], Numbers(trace, ops)[k])
  {
    hide Inv, View, AbstractStep, Step, Enabled, NewNumber, Answer, AbstractAnswer, AbstractRun;
    RunInv(trace, ops, k);
    var t, o := trace[..k + 1], ops[..k];
    assert t[0] == trace[0] && t[k] == trace[k];
    assert IsRun(t, o);
    RunRefines(t, o);
    assert Numbers(trace, ops)[..k] == Numbers(t, o);
    AnswerRefines(trace[k], ops[k]);
  }
}
