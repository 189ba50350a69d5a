/** A file's bytes as they lie in the sectors of its table: the chunk-by-chunk
    copy loops of inode_read_at and inode_write_at as functions of a disk image,
    and what they do to the byte sequence a reader sees. */
module FileData {
  import opened Basics
  import opened Blocks

  ghost predicate InRange(disk: seq<Block>, sectors: seq<Word>) {
    forall i :: 0 <= i < |sectors| ==> sectors[i] < |disk|
  }

  /** Byte P of a file whose I-th sector is sectors[I]. */
  function ByteAt(disk: seq<Block>, sectors: seq<Word>, p: nat): Byte
    requires p / 512 < |sectors|
  {
    Get(disk, sectors[p / 512])[p % 512]
  }

  function Bytes(disk: seq<Block>, sectors: seq<Word>, len: nat): (r: seq<Byte>)
    requires len <= 512 * |sectors|
    ensures |r| == len
  {
    seq(len, p requires 0 <= p < len => ByteAt(disk, sectors, p))
  }

  /** How many of SIZE bytes one turn of a copy loop moves, INODELEFT bytes
      before the end of the file and at offset O of a sector. */
  function Chunk(inodeLeft: int, size: int, o: nat): int {
    var sectorLeft := 512 - o;
    var minLeft := if inodeLeft < sectorLeft then inodeLeft else sectorLeft;
    if size < minLeft then size else minLeft
  }

  /** Block B with BYTES copied in at offset O. */
  function Patch(b: Block, o: nat, bytes: seq<Byte>): Block
    requires o + |bytes| <= 512
  {
    b[..o] + bytes + b[o + |bytes|..]
  }

  /** One turn of the write loop: PART into the K-th sector at offset O. */
  function WriteChunk(disk: seq<Block>, sectors: seq<Word>, part: seq<Byte>, k: nat, o: nat): (r: seq<Block>)
    requires k < |sectors| && o + |part| <= 512
    ensures |r| == |disk|
  {
    Put(disk, sectors[k], Patch(Get(disk, sectors[k]), o, part))
  }

  /** The write loop from byte O of sector K on, never past LEN. */
  function WriteFrom(disk: seq<Block>, sectors: seq<Word>, len: nat, buf: seq<Byte>, k: nat, o: nat): (r: seq<Block>)
    requires o < 512
    ensures |r| == |disk|
    decreases |buf|
  {
    var c := Chunk(len - (512 * k + o), |buf|, o);
    if c <= 0 || k >= |sectors| then disk
    else
      var disk' := WriteChunk(disk, sectors, buf[..c], k, o);
      if o + c == 512 then WriteFrom(disk', sectors, len, buf[c..], k + 1, 0)
      else WriteFrom(disk', sectors, len, buf[c..], k, o + c)
  }

  /** The write loop: copies BUF to file offset OFF, never past LEN. */
  function Overwrite(disk: seq<Block>, sectors: seq<Word>, len: nat, buf: seq<Byte>, off: nat): (r: seq<Block>)
    ensures |r| == |disk|
  {
    WriteFrom(disk, sectors, len, buf, off / 512, off % 512)
  }

  /** How many bytes the copy loops move in all: the request cut at LEN. */
  function Moved(len: nat, size: int, off: nat): nat {
    if size <= 0 || off >= len then 0 else if size < len - off then size else len - off
  }

  /** Byte O of the file's K-th sector. */
  function Cell(disk: seq<Block>, sectors: seq<Word>, k: nat, o: nat): Byte
    requires k < |sectors| && o < 512
  {
    Get(disk, sectors[k])[o]
  }

  lemma OneChunk(disk: seq<Block>, sectors: seq<Word>, part: seq<Byte>, k: nat, o: nat, k': nat, o': nat)
    requires NoDup(sectors) && InRange(disk, sectors)
    requires k < |sectors| && o + |part| <= 512
    requires k' < |sectors| && o' < 512
    ensures Cell(WriteChunk(disk, sectors, part, k, o), sectors, k', o')
            == if k' == k && o <= o' < o + |part| then part[o' - o] else Cell(disk, sectors, k', o')
  {
    if k' != k {
      assert sectors[k'] != sectors[k];
    }
  }

  /** The write loop changes exactly the bytes it was asked to change. */
  lemma {:induction false} WriteFromCell(disk: seq<Block>, sectors: seq<Word>, len: nat, buf: seq<Byte>, k: nat, o: nat,
                                         k': nat, o': nat)
    requires NoDup(sectors) && InRange(disk, sectors)
    requires len <= 512 * |sectors| && o < 512 && k' < |sectors| && o' < 512
    ensures var off, p := 512 * k + o, 512 * k' + o';
            Cell(WriteFrom(disk, sectors, len, buf, k, o), sectors, k', o')
            == if off <= p < off + Moved(len, |buf|, off) then buf[p - off] else Cell(disk, sectors, k', o')
    decreases |buf|
  {
    var c := Chunk(len - (512 * k + o), |buf|, o);
    if c > 0 {
      var disk' := WriteChunk(disk, sectors, buf[..c], k, o);
      OneChunk(disk, sectors, buf[..c], k, o, k', o');
      if o + c == 512 {
        WriteFromCell(disk', sectors, len, buf[c..], k + 1, 0, k', o');
      } else {
        WriteFromCell(disk', sectors, len, buf[c..], k, o + c, k', o');
      }
    }
  }

  lemma OverwriteByte(disk: seq<Block>, sectors: seq<Word>, len: nat, buf: seq<Byte>, off: nat, p: nat)
    requires NoDup(sectors) && InRange(disk, sectors)
    requires len <= 512 * |sectors| && p / 512 < |sectors|
    ensures ByteAt(Overwrite(disk, sectors, len, buf, off), sectors, p)
            == if off <= p < off + Moved(len, |buf|, off) then buf[p - off] else ByteAt(disk, sectors, p)
  {
    WriteFromCell(disk, sectors, len, buf, off / 512, off % 512, p / 512, p % 512);
  }

  /** ... and touches no sector outside the file's table. */
  lemma {:induction false} WriteFromFrame(disk: seq<Block>, sectors: seq<Word>, len: nat, buf: seq<Byte>, k: nat, o: nat, x: int)
    requires o < 512 && x !in sectors
    ensures Get(WriteFrom(disk, sectors, len, buf, k, o), x) == Get(disk, x)
    decreases |buf|
  {
    var c := Chunk(len - (512 * k + o), |buf|, o);
    if c > 0 && k < |sectors| {
      var disk' := WriteChunk(disk, sectors, buf[..c], k, o);
      if o + c == 512 {
        WriteFromFrame(disk', sectors, len, buf[c..], k + 1, 0, x);
      } else {
        WriteFromFrame(disk', sectors, len, buf[c..], k, o + c, x);
      }
    }
  }

  lemma OverwriteFrame(disk: seq<Block>, sectors: seq<Word>, len: nat, buf: seq<Byte>, off: nat, x: int)
    requires x !in sectors
    ensures Get(Overwrite(disk, sectors, len, buf, off), x) == Get(disk, x)
  {
    WriteFromFrame(disk, sectors, len, buf, off / 512, off % 512, x);
  }

  /** The byte sequence CONTENTS extended with zeros to length LEN. */
  function ZeroExtend(contents: seq<Byte>, len: nat): seq<Byte> {
    if len <= |contents| then contents else contents + seq(len - |contents|, _ => 0)
  }

  /** CONTENTS with BYTES laid over it at offset OFF. */
  function Overlay(contents: seq<Byte>, bytes: seq<Byte>, off: nat): (r: seq<Byte>)
    requires off + |bytes| <= |contents|
    ensures |r| == |contents|
  {
    contents[..off] + bytes + contents[off + |bytes|..]
  }

  /** Reading back after the write loop gives the old bytes overlaid with the new. */
  lemma OverwriteOverlays(disk: seq<Block>, sectors: seq<Word>, len: nat, buf: seq<Byte>, off: nat)
    requires NoDup(sectors) && InRange(disk, sectors)
    requires len <= 512 * |sectors| && off <= len
    ensures var n := Moved(len, |buf|, off);
            off + n <= len
            && Bytes(Overwrite(disk, sectors, len, buf, off), sectors, len)
               == Overlay(Bytes(disk, sectors, len), buf[..n], off)
  {
    var n := Moved(len, |buf|, off);
    var was := Bytes(disk, sectors, len);
    var now := Bytes(Overwrite(disk, sectors, len, buf, off), sectors, len);
    assert forall p :: 0 <= p < len ==> now[p] == Overlay(was, buf[..n], off)[p] by {
      forall p | 0 <= p < len ensures now[p] == Overlay(was, buf[..n], off)[p] {
        OverwriteByte(disk, sectors, len, buf, off, p);
        OverlayAt(was, buf[..n], off, p);
      }
    }
  }

  lemma OverlayAt(contents: seq<Byte>, bytes: seq<Byte>, off: nat, p: nat)
    requires off + |bytes| <= |contents| && p < |contents|
    ensures Overlay(contents, bytes, off)[p]
            == if off <= p < off + |bytes| then bytes[p - off] else contents[p]
  {
  }
}
