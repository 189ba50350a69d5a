/** Disk sectors as blocks of 512 bytes, and the packing of 32-bit sector
    numbers into a block (the in-memory structures inode_disk and
    inode_indirect are copied to and from sectors byte for byte). */
module Blocks {

  newtype Byte = x: int | 0 <= x < 256
  type Word = x: int | 0 <= x < 0x1_0000_0000

  type Block = b: seq<Byte> | |b| == 512 witness seq(512, _ => 0)
  /** The 128 little-endian words that fill one sector. */
  type Table = t: seq<Word> | |t| == 128 witness seq(128, _ => 0)

  function Zeros(): Block { seq(512, _ => 0) }

  function NoSectors(): Table { seq(128, _ => 0) }

  /** Byte K of the little-endian representation of W. */
  function WordByte(w: Word, k: int): Byte
    requires 0 <= k < 4
  {
    if k == 0 then (w % 256) as Byte
    else if k == 1 then (w / 256 % 256) as Byte
    else if k == 2 then (w / 65536 % 256) as Byte
    else (w / 16777216) as Byte
  }

  function Encode(t: Table): Block {
    seq(512, i requires 0 <= i < 512 => WordByte(t[i / 4], i % 4))
  }

  function JoinBytes(b0: Byte, b1: Byte, b2: Byte, b3: Byte): Word {
    b0 as int + 256 * (b1 as int) + 65536 * (b2 as int) + 16777216 * (b3 as int)
  }

  function Decode(b: Block): Table {
    seq(128, i requires 0 <= i < 128 => JoinBytes(b[4 * i], b[4 * i + 1], b[4 * i + 2], b[4 * i + 3]))
  }

  lemma JoinWordBytes(w: Word)
    ensures JoinBytes(WordByte(w, 0), WordByte(w, 1), WordByte(w, 2), WordByte(w, 3)) == w
  {
    assert w / 65536 == w / 256 / 256;
    assert w / 16777216 == w / 256 / 256 / 256;
  }

  /** Words are stored with the lowest byte first. */
  lemma LowestByteFirst(w: Word)
    ensures w == WordByte(w, 0) as int + 0x100 * (WordByte(w, 1) as int) + 0x1_0000 * (WordByte(w, 2) as int)
                 + 0x100_0000 * (WordByte(w, 3) as int)
  {
    JoinWordBytes(w);
  }

  lemma DecodeEncode(t: Table)
    ensures Decode(Encode(t)) == t
  {
    var b := Encode(t);
    forall i | 0 <= i < 128 ensures Decode(b)[i] == t[i] {
      assert b[4 * i] == WordByte(t[i], 0);
      assert b[4 * i + 1] == WordByte(t[i], 1);
      assert b[4 * i + 2] == WordByte(t[i], 2);
      assert b[4 * i + 3] == WordByte(t[i], 3);
      JoinWordBytes(t[i]);
    }
  }

  lemma SplitJoinedBytes(b0: Byte, b1: Byte, b2: Byte, b3: Byte)
    ensures var w := JoinBytes(b0, b1, b2, b3);
            WordByte(w, 0) == b0 && WordByte(w, 1) == b1 && WordByte(w, 2) == b2 && WordByte(w, 3) == b3
  {
    var w := JoinBytes(b0, b1, b2, b3);
    assert w / 256 == b1 as int + 256 * (b2 as int) + 65536 * (b3 as int);
    assert w / 65536 == b2 as int + 256 * (b3 as int);
    assert w / 16777216 == b3 as int;
  }

  lemma EncodeDecode(b: Block)
    ensures Encode(Decode(b)) == b
  {
    hide WordByte, JoinBytes;
    forall i | 0 <= i < 512 ensures Encode(Decode(b))[i] == b[i] {
      var j := i / 4;
      SplitJoinedBytes(b[4 * j], b[4 * j + 1], b[4 * j + 2], b[4 * j + 3]);
      assert i == 4 * j + i % 4;
    }
  }

  /** Reads sector S of a disk image; sectors past the end read as zeros. */
  function Get(disk: seq<Block>, s: int): Block {
    if 0 <= s < |disk| then disk[s] else Zeros()
  }

  /** Replaces sector S; nothing happens past the end of the disk. */
  function Put(disk: seq<Block>, s: int, b: Block): seq<Block> {
    if 0 <= s < |disk| then disk[s := b] else disk
  }
}
