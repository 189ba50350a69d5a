/** On-disk inodes: the sector table, what a well-formed file owns, and the
    frame rule that everything else rests on. */
module Inodes {
  import opened Basics
  import opened Blocks
  import opened FileData

  type DirectTable = t: seq<Word> | |t| == 123 witness seq(123, _ => 0)
  type Length = x: int | 0 <= x < 0x8000_0000

  datatype InodeDisk = InodeDisk(direct: DirectTable, indirect: Word, dindirect: Word,
                                 directory: bool, length: Length, magic: Word)

  function Words(d: InodeDisk): Table {
    d.direct + [d.indirect, d.dindirect, if d.directory then 1 else 0, d.length, d.magic]
  }

  function EncodeInode(d: InodeDisk): Block { Encode(Words(d)) }

  function FromWords(t: Table): InodeDisk {
    InodeDisk(t[..123], t[123], t[124], t[125] % 256 != 0, if t[126] < 0x8000_0000 then t[126] else 0, t[127])
  }

  function DecodeInode(b: Block): InodeDisk { FromWords(Decode(b)) }

  /** What inode_open reads back is what inode_create or inode_write_at stored. */
  lemma InodeRoundTrip(d: InodeDisk)
    ensures DecodeInode(EncodeInode(d)) == d
  {
    DecodeEncode(Words(d));
    FromWordsOfInode(d);
  }

  lemma FromWordsOfInode(d: InodeDisk)
    ensures FromWords(Words(d)) == d
  {
    assert Words(d)[..123] == d.direct;
  }

  /** Where the fields of struct inode_disk lie in a sector, in words: 123 direct entries, the two
      indices, the directory flag, the length and the magic number. */
  lemma InodeLayout(d: InodeDisk, i: nat)
    requires i < 128
    ensures Decode(EncodeInode(d))[i]
            == if i < 123 then d.direct[i] else if i == 123 then d.indirect else if i == 124 then d.dindirect
               else if i == 125 then (if d.directory then 1 else 0) else if i == 126 then d.length else d.magic
  {
    hide Encode, Decode;
    DecodeEncode(Words(d));
  }

  function Sectors(length: nat): nat { (length + 511) / 512 }

  /** The sector that holds the file's I-th 512 bytes, through the direct,
      indirect or doubly indirect table. */
  function SectorOf(d: InodeDisk, disk: seq<Block>, i: nat): Word
    requires i < 123 + 128 + 128 * 128
  {
    if i < 123 then d.direct[i]
    else if i < 251 then Decode(Get(disk, d.indirect))[i - 123]
    else Decode(Get(disk, Decode(Get(disk, d.dindirect))[(i - 251) / 128]))[(i - 251) % 128]
  }

  /** The first N data sectors of the file, in order. */
  function Prefix(d: InodeDisk, disk: seq<Block>, n: nat): (r: seq<Word>)
    requires n <= 251
    ensures |r| == n
  {
    seq(n, i requires 0 <= i < n => SectorOf(d, disk, i))
  }

  predicate Small(d: InodeDisk) { d.length <= 251 * 512 }

  function FileSectors(d: InodeDisk, disk: seq<Block>): (r: seq<Word>)
    requires Small(d)
    ensures |r| == Sectors(d.length)
  {
    Prefix(d, disk, Sectors(d.length))
  }

  /** Every sector the file occupies besides the one with its inode, in the
      order inode_disk_allocate takes them. */
  function Owned(d: InodeDisk, disk: seq<Block>): seq<Word>
    requires Small(d)
  {
    var fs := FileSectors(d, disk);
    if |fs| <= 123 then fs else fs[..123] + [d.indirect] + fs[123..]
  }

  function Contents(d: InodeDisk, disk: seq<Block>): (r: seq<Byte>)
    requires Small(d)
    ensures |r| == d.length
  {
    Bytes(disk, FileSectors(d, disk), d.length)
  }

  ghost predicate NonzeroUpTo(table: seq<Word>, k: nat) {
    forall j :: 0 <= j < |table| ==> (table[j] != 0 <==> j < k)
  }

  /** Table entries are nonzero exactly up to the file's last sector. */
  ghost predicate Shape(d: InodeDisk, disk: seq<Block>)
    requires Small(d)
  {
    var n := Sectors(d.length);
    && NonzeroUpTo(d.direct, n)
    && (d.indirect != 0 <==> n > 123)
    && d.dindirect == 0
    && (n > 123 ==> NonzeroUpTo(Decode(Get(disk, d.indirect)), n - 123))
  }

  /** Bytes between the end of the file and the end of its last sector are zero. */
  ghost predicate SlackZero(d: InodeDisk, disk: seq<Block>)
    requires Small(d)
  {
    forall p :: d.length <= p < 512 * Sectors(d.length) ==> ByteAt(disk, FileSectors(d, disk), p) == 0
  }

  /** The sectors in XS exist and are marked in the free map. */
  ghost predicate Marked(used: seq<bool>, xs: seq<Word>) {
    forall x :: x in xs ==> x < |used| && used[x]
  }

  ghost predicate FileOk(disk: seq<Block>, used: seq<bool>, d: InodeDisk) {
    && |used| == |disk|
    && Small(d)
    && Shape(d, disk)
    && NoDup(Owned(d, disk))
    && Marked(used, Owned(d, disk))
    && SlackZero(d, disk)
  }

  lemma FileOkSmall(disk: seq<Block>, used: seq<bool>, d: InodeDisk)
    requires FileOk(disk, used, d)
    ensures Small(d)
  {
  }

  lemma SectorsBound(length: nat)
    ensures 512 * Sectors(length) - 512 < length <= 512 * Sectors(length)
  {
  }

  lemma OwnedParts(d: InodeDisk, disk: seq<Block>)
    requires Small(d)
    ensures forall i :: 0 <= i < Sectors(d.length) ==> FileSectors(d, disk)[i] in Owned(d, disk)
    ensures Sectors(d.length) > 123 ==> d.indirect in Owned(d, disk)
    ensures NoDup(Owned(d, disk)) ==>
              && NoDup(FileSectors(d, disk))
              && (Sectors(d.length) > 123 ==> d.indirect !in FileSectors(d, disk))
  {
    var n := Sectors(d.length);
    var o := Owned(d, disk);
    var fs := FileSectors(d, disk);
    if n > 123 {
      assert forall i :: 0 <= i < 123 ==> o[i] == fs[i];
      assert o[123] == d.indirect;
      assert forall i :: 123 <= i < n ==> o[i + 1] == fs[i];
    }
  }

  /** The sector table depends on the disk only through the index sector. */
  lemma SameTable(d: InodeDisk, disk: seq<Block>, disk': seq<Block>)
    requires Small(d)
    requires Sectors(d.length) > 123 ==> Get(disk', d.indirect) == Get(disk, d.indirect)
    ensures FileSectors(d, disk') == FileSectors(d, disk) && Owned(d, disk') == Owned(d, disk)
    ensures Shape(d, disk') <==> Shape(d, disk)
  {
    assert FileSectors(d, disk') == FileSectors(d, disk);
  }

  /** If no sector a file owns changes, the file does not change. */
  lemma FileFrame(disk: seq<Block>, used: seq<bool>, disk': seq<Block>, used': seq<bool>, d: InodeDisk)
    requires FileOk(disk, used, d)
    requires |disk'| == |disk| == |used'|
    requires forall x :: x in Owned(d, disk) ==> Get(disk', x) == Get(disk, x)
    requires Marked(used', Owned(d, disk))
    ensures FileOk(disk', used', d)
    ensures FileSectors(d, disk') == FileSectors(d, disk) && Owned(d, disk') == Owned(d, disk)
    ensures Contents(d, disk') == Contents(d, disk)
  {
    hide Owned, Shape, NoDup, FileSectors, Get;
    OwnedParts(d, disk);
    SameTable(d, disk, disk');
    var fs := FileSectors(d, disk);
    forall p | 0 <= p < 512 * Sectors(d.length)
      ensures ByteAt(disk', fs, p) == ByteAt(disk, fs, p)
    {
      assert fs[p / 512] in Owned(d, disk);
    }
  }

  /** Writing inside the file's length keeps the file well formed and its table
      where it was, and changes only its data sectors. */
  lemma OverwriteKeepsFile(disk: seq<Block>, used: seq<bool>, d: InodeDisk, buf: seq<Byte>, off: nat)
    requires FileOk(disk, used, d)
    ensures var disk' := Overwrite(disk, FileSectors(d, disk), d.length, buf, off);
            && FileOk(disk', used, d)
            && FileSectors(d, disk') == FileSectors(d, disk)
            && Owned(d, disk') == Owned(d, disk)
  {
    hide Owned, Shape, NoDup, FileSectors, Get, Overwrite;
    OwnedParts(d, disk);
    SectorsBound(d.length);
    var fs := FileSectors(d, disk);
    var disk' := Overwrite(disk, fs, d.length, buf, off);
    if Sectors(d.length) > 123 {
      OverwriteFrame(disk, fs, d.length, buf, off, d.indirect);
    }
    SameTable(d, disk, disk');
    FileSectorsInRange(disk, used, d);
    forall p | d.length <= p < 512 * Sectors(d.length)
      ensures ByteAt(disk', fs, p) == 0
    {
      OverwriteByte(disk, fs, d.length, buf, off, p);
    }
  }

  lemma FileSectorsInRange(disk: seq<Block>, used: seq<bool>, d: InodeDisk)
    requires FileOk(disk, used, d)
    ensures InRange(disk, FileSectors(d, disk))
    ensures NoDup(FileSectors(d, disk))
    ensures d.length <= 512 * |FileSectors(d, disk)|
  {
    OwnedParts(d, disk);
    forall i | 0 <= i < Sectors(d.length)
      ensures FileSectors(d, disk)[i] < |disk|
    {
      assert FileSectors(d, disk)[i] in Owned(d, disk);
    }
  }
}
