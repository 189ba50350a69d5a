/** Bitmaps packed into 32-bit words, against plain sequences of booleans. */
module Bitmaps {
  import opened Basics
  import Arithmetic
  import opened Blocks

  function ElemIdx(i: nat): nat { i / 32 }

  /** The bit of its word that holds bit I. */
  function BitIdx(i: nat): bv5 { (i % 32) as bv5 }

  function BitMask(k: bv5): bv32 { 1 << k }

  function And(x: bv32, y: bv32): bv32 { x & y }

  function Or(x: bv32, y: bv32): bv32 { x | y }

  function AndNot(x: bv32, y: bv32): bv32 { x & !y }

  predicate HasBit(w: bv32, k: bv5) { And(w, BitMask(k)) != 0 }

  function WithBit(w: bv32, k: bv5): bv32 { Or(w, BitMask(k)) }

  function WithoutBit(w: bv32, k: bv5): bv32 { AndNot(w, BitMask(k)) }

  function ElemCnt(bitCnt: nat): nat { (bitCnt + 31) / 32 }

  function Test(words: seq<bv32>, i: nat): bool
    requires ElemIdx(i) < |words|
  {
    HasBit(words[ElemIdx(i)], BitIdx(i))
  }

  function Mark(words: seq<bv32>, i: nat): (r: seq<bv32>)
    requires ElemIdx(i) < |words|
    ensures |r| == |words|
  {
    words[ElemIdx(i) := WithBit(words[ElemIdx(i)], BitIdx(i))]
  }

  function Reset(words: seq<bv32>, i: nat): (r: seq<bv32>)
    requires ElemIdx(i) < |words|
    ensures |r| == |words|
  {
    words[ElemIdx(i) := WithoutBit(words[ElemIdx(i)], BitIdx(i))]
  }

  /** All the bits the words hold, the unused ones of the last word included. */
  function AllBits(words: seq<bv32>): (r: seq<bool>)
    ensures |r| == 32 * |words|
  {
    seq(32 * |words|, i requires 0 <= i < 32 * |words| => Test(words, i))
  }

  lemma BitIdxBack(i: nat)
    ensures BitIdx(i) as int == i % 32
  {
  }

  lemma MasksApart(i: bv5, j: bv5)
    requires i != j
    ensures And(BitMask(i), BitMask(j)) == 0
  {
  }

  lemma MaskNonzero(i: bv5)
    ensures BitMask(i) != 0
  {
  }

  lemma SetMasked(w: bv32, m: bv32, n: bv32)
    requires And(m, n) == 0
    ensures And(Or(w, m), n) == And(w, n)
  {
  }

  lemma ClearMasked(w: bv32, m: bv32, n: bv32)
    requires And(m, n) == 0
    ensures And(AndNot(w, m), n) == And(w, n)
  {
  }

  lemma SetSame(w: bv32, m: bv32)
    ensures And(Or(w, m), m) == m
  {
  }

  lemma ClearSame(w: bv32, m: bv32)
    ensures And(AndNot(w, m), m) == 0
  {
  }

  lemma SetInWord(w: bv32, a: bv5, b: bv5)
    ensures HasBit(WithBit(w, a), b) <==> a == b || HasBit(w, b)
    ensures HasBit(WithoutBit(w, a), b) <==> a != b && HasBit(w, b)
  {
    hide BitMask, And, Or, AndNot;
    if a == b {
      MaskNonzero(a);
      SetSame(w, BitMask(a));
      ClearSame(w, BitMask(a));
    } else {
      MasksApart(a, b);
      SetMasked(w, BitMask(a), BitMask(b));
      ClearMasked(w, BitMask(a), BitMask(b));
    }
  }

  /** Setting or clearing one bit of the packed words changes that bit alone. */
  lemma SetOneBit(words: seq<bv32>, i: nat, j: nat)
    requires ElemIdx(i) < |words| && ElemIdx(j) < |words|
    ensures Test(Mark(words, i), j) <==> i == j || Test(words, j)
    ensures Test(Reset(words, i), j) <==> i != j && Test(words, j)
  {
    hide HasBit, WithBit, WithoutBit, BitIdx;
    if ElemIdx(i) == ElemIdx(j) {
      SetInWord(words[ElemIdx(i)], BitIdx(i), BitIdx(j));
      BitIdxBack(i);
      BitIdxBack(j);
    }
  }

  lemma SetOneBitAll(words: seq<bv32>, i: nat)
    requires ElemIdx(i) < |words|
    ensures AllBits(Mark(words, i)) == AllBits(words)[i := true]
    ensures AllBits(Reset(words, i)) == AllBits(words)[i := false]
  {
    hide Test, Mark, Reset;
    forall j | 0 <= j < 32 * |words|
      ensures AllBits(Mark(words, i))[j] == AllBits(words)[i := true][j]
      ensures AllBits(Reset(words, i))[j] == AllBits(words)[i := false][j]
    {
      SetOneBit(words, i, j);
    }
  }

  /** Bits START up to START + CNT are all VALUE. */
  predicate Run(bits: seq<bool>, start: nat, cnt: nat, value: bool) {
    start + cnt <= |bits| && forall k :: start <= k < start + cnt ==> bits[k] == value
  }

  /** BITS with the CNT bits from START on set to VALUE. */
  function SetRun(bits: seq<bool>, start: nat, cnt: nat, value: bool): (r: seq<bool>)
    requires start + cnt <= |bits|
    ensures |r| == |bits|
    ensures forall k :: 0 <= k < |bits| ==> r[k] == if start <= k < start + cnt then value else bits[k]
  {
    bits[..start] + seq(cnt, _ => value) + bits[start + cnt..]
  }

  /** The least start of a run of CNT bits equal to VALUE at or after START. */
  ghost predicate IsScan(bits: seq<bool>, start: nat, cnt: nat, value: bool, r: Option<nat>) {
    match r
    case Some(i) => start <= i && Run(bits, i, cnt, value) && forall j :: start <= j < i ==> !Run(bits, j, cnt, value)
    case None => forall j :: start <= j ==> !Run(bits, j, cnt, value)
  }

  /** The number whose binary digits are BITS, least significant first. */
  function Pack(bits: seq<bool>): (r: nat)
    ensures r < Arithmetic.Pow2(|bits|)
  {
    if bits == [] then 0 else (if bits[0] then 1 else 0) + 2 * Pack(bits[1..])
  }

  lemma {:induction false} PackInjective(a: seq<bool>, b: seq<bool>)
    requires |a| == |b| && Pack(a) == Pack(b)
    ensures a == b
    decreases |a|
  {
    if a != [] {
      assert Pack(a) % 2 == (if a[0] then 1 else 0) && Pack(b) % 2 == (if b[0] then 1 else 0);
      PackInjective(a[1..], b[1..]);
      assert a == [a[0]] + a[1..] && b == [b[0]] + b[1..];
    }
  }

  function PackByte(bits: seq<bool>): Byte
    requires |bits| == 8
  {
    assert Arithmetic.Pow2(8) == 16 * Arithmetic.Pow2(4) && Arithmetic.Pow2(4) == 16;
    Pack(bits) as Byte
  }

  /** Bit K weighs 2^K. */
  lemma {:induction false} PackLast(bits: seq<bool>)
    requires bits != []
    ensures Pack(bits) == Pack(bits[..|bits| - 1]) + if bits[|bits| - 1] then Arithmetic.Pow2(|bits| - 1) else 0
  {
    var n := |bits| - 1;
    if n == 0 {
      assert bits[1..] == [] && bits[..0] == [];
    } else {
      var rest, front := bits[1..], bits[..n];
      PackLast(rest);
      assert front[1..] == rest[..n - 1] && front[0] == bits[0];
      assert Pack(front) == (if bits[0] then 1 else 0) + 2 * Pack(front[1..]);
    }
  }

  /** The bytes of a bitmap: bit I of the map is bit I % 8 of byte I / 8. */
  function ImageByte(bits: seq<bool>, j: nat): Byte
    requires 8 * j + 8 <= |bits|
  {
    PackByte(bits[8 * j..8 * j + 8])
  }

  function Image(bits: seq<bool>): (r: seq<Byte>)
    ensures |r| == |bits| / 8
  {
    seq(|bits| / 8, j requires 0 <= j < |bits| / 8 => ImageByte(bits, j))
  }

  /** Byte K of word W in memory. */
  function MemoryByte(w: bv32, k: nat): Byte
    requires k < 4
  {
    PackByte(seq(8, t requires 0 <= t < 8 => HasBit(w, BitIdx(8 * k + t))))
  }

  lemma BitOfByte(words: seq<bv32>, j: nat, t: nat)
    requires j < 4 * |words| && t < 8
    ensures AllBits(words)[8 * j + t] == HasBit(words[j / 4], BitIdx(8 * (j % 4) + t))
  {
    hide HasBit;
    assert (8 * j + t) / 32 == j / 4 && (8 * j + t) % 32 == 8 * (j % 4) + t;
  }

  lemma ByteInMemory(words: seq<bv32>, j: nat)
    requires j < 4 * |words|
    ensures ImageByte(AllBits(words), j) == MemoryByte(words[j / 4], j % 4)
  {
    hide AllBits, HasBit, BitIdx, PackByte;
    var a := AllBits(words)[8 * j..8 * j + 8];
    var b := seq(8, t requires 0 <= t < 8 => HasBit(words[j / 4], BitIdx(8 * (j % 4) + t)));
    forall t | 0 <= t < 8 ensures a[t] == b[t] {
      BitOfByte(words, j, t);
    }
    assert a == b;
  }

  /** The bytes written to the free-map file determine the map. */
  lemma ImageDetermines(a: seq<bool>, b: seq<bool>)
    requires |a| == |b| && |a| % 8 == 0 && Image(a) == Image(b)
    ensures a == b
  {
    forall i | 0 <= i < |a| ensures a[i] == b[i] {
      var j, t := i / 8, i % 8;
      assert Image(a)[j] == Image(b)[j];
      PackInjective(a[8 * j..8 * j + 8], b[8 * j..8 * j + 8]);
      assert a[i] == a[8 * j..8 * j + 8][t] && b[i] == b[8 * j..8 * j + 8][t];
    }
  }

  // ---- reading a map back ----

  /** The N lowest binary digits of B, least significant first. */
  function Unpack(b: nat, n: nat): (r: seq<bool>)
    ensures |r| == n
  {
    if n == 0 then [] else [b % 2 == 1] + Unpack(b / 2, n - 1)
  }

  lemma {:induction false} UnpackPack(bits: seq<bool>)
    ensures Unpack(Pack(bits), |bits|) == bits
  {
    if bits != [] {
      var b := Pack(bits);
      assert b / 2 == Pack(bits[1..]) && (b % 2 == 1) == bits[0];
      UnpackPack(bits[1..]);
      assert bits == [bits[0]] + bits[1..];
    }
  }

  /** The bits that BYTES hold. */
  function BitsOf(bytes: seq<Byte>): (r: seq<bool>)
    ensures |r| == 8 * |bytes|
  {
    seq(8 * |bytes|, i requires 0 <= i < 8 * |bytes| => Unpack(bytes[i / 8] as nat, 8)[i % 8])
  }

  /** The bytes of a map hold its bits. */
  lemma BitsOfImage(bits: seq<bool>)
    requires |bits| % 8 == 0
    ensures BitsOf(Image(bits)) == bits
  {
    hide Unpack, Pack;
    forall i | 0 <= i < |bits| ensures BitsOf(Image(bits))[i] == bits[i] {
      var j := i / 8;
      UnpackPack(bits[8 * j..8 * j + 8]);
      assert bits[8 * j..8 * j + 8][i % 8] == bits[i];
    }
  }

  /** A word with the given bits. */
  function WordOf(bits: seq<bool>, n: nat): bv32
    requires n <= |bits| && n <= 32
  {
    if n == 0 then 0 else if bits[n - 1] then WithBit(WordOf(bits, n - 1), BitIdx(n - 1)) else WordOf(bits, n - 1)
  }

  lemma ZeroHasNone(k: bv5)
    ensures !HasBit(0, k)
  {
  }

  lemma {:induction false} WordOfBits(bits: seq<bool>, n: nat, k: nat)
    requires n <= |bits| && n <= 32 && k < 32
    ensures HasBit(WordOf(bits, n), BitIdx(k)) <==> k < n && bits[k]
  {
    hide HasBit, WithBit, BitIdx;
    if n == 0 {
      ZeroHasNone(BitIdx(k));
    } else {
      WordOfBits(bits, n - 1, k);
      BitIdxBack(k);
      BitIdxBack(n - 1);
      SetInWord(WordOf(bits, n - 1), BitIdx(n - 1), BitIdx(k));
    }
  }

  /** last_mask: ones for the bits of the last word that belong to a map of BITCNT bits. */
  function LastMask(r: bv5): bv32 { if r == 0 then 0xFFFF_FFFF else (1 << r) - 1 }

  lemma LastMaskBit(r: bv5, k: bv5)
    ensures And(LastMask(r), BitMask(k)) == if r == 0 || k < r then BitMask(k) else 0
  {
  }

  lemma MaskedTwice(w: bv32, m: bv32, b: bv32)
    ensures And(m, b) == b ==> And(And(w, m), b) == And(w, b)
    ensures And(m, b) == 0 ==> And(And(w, m), b) == 0
  {
  }

  lemma LastMasked(w: bv32, r: bv5, k: bv5)
    ensures HasBit(And(w, LastMask(r)), k) <==> HasBit(w, k) && (r == 0 || k < r)
  {
    hide And, LastMask, BitMask;
    LastMaskBit(r, k);
    MaskedTwice(w, LastMask(r), BitMask(k));
  }

  lemma WordsAre(words: seq<bv32>, bits: seq<bool>)
    requires |bits| == 32 * |words|
    requires forall m, k :: 0 <= m < |words| && 0 <= k < 32 ==> HasBit(words[m], BitIdx(k)) == bits[32 * m + k]
    ensures AllBits(words) == bits
  {
    hide HasBit, BitIdx;
    forall i | 0 <= i < |bits| ensures AllBits(words)[i] == bits[i] {
      assert BitIdx(i) == BitIdx(i % 32) by { SameIdx(i); }
      assert bits[32 * (i / 32) + i % 32] == bits[i];
    }
  }

  lemma SameIdx(i: nat)
    ensures BitIdx(i) == BitIdx(i % 32)
  {
  }

  /** Masking the last word clears exactly the bits past the end. */
  lemma MaskLast(words: seq<bv32>, words': seq<bv32>, n: nat)
    requires n > 0 && |words| == ElemCnt(n) && |words'| == |words|
    requires words' == words[|words| - 1 := And(words[|words| - 1], LastMask(BitIdx(n)))]
    ensures AllBits(words')[..n] == AllBits(words)[..n]
    ensures AllBits(words')[n..] == seq(32 * |words| - n, _ => false)
  {
    hide HasBit, And, LastMask, BitIdx;
    forall i | 0 <= i < 32 * |words| ensures AllBits(words')[i] == (AllBits(words)[i] && i < n) {
      var m := i / 32;
      BitIdxBack(i);
      BitIdxBack(n);
      if m == |words| - 1 {
        LastMasked(words[m], BitIdx(n), BitIdx(i));
        LastWord(n, i);
      }
    }
  }

  lemma SameOrder(a: bv5, b: bv5)
    ensures a < b <==> a as int < b as int
    ensures a == 0 <==> a as int == 0
  {
  }

  lemma LastWord(n: nat, i: nat)
    requires n > 0 && i / 32 == ElemCnt(n) - 1
    ensures i < n <==> BitIdx(n) == 0 || BitIdx(i) < BitIdx(n)
  {
    hide BitIdx, ElemCnt;
    BitIdxBack(i);
    BitIdxBack(n);
    SameOrder(BitIdx(i), BitIdx(n));
    SameOrder(BitIdx(n), BitIdx(n));
    LastIndex(n, i);
  }

  lemma LastIndex(n: nat, i: nat)
    requires n > 0 && i / 32 == ElemCnt(n) - 1
    ensures i < n <==> n % 32 == 0 || i % 32 < n % 32
  {
  }

  class Bitmap {
    const bitCnt: nat
    const words: array<bv32>

    ghost predicate Valid()
      reads this
    {
      words.Length == ElemCnt(bitCnt)
    }

    ghost function Bits(): (r: seq<bool>)
      requires Valid()
      reads this, words
      ensures |r| == bitCnt
    {
      AllBits(words[..])[..bitCnt]
    }

    /** The bits of the last word past the end of the map. */
    ghost function Pad(): (r: seq<bool>)
      requires Valid()
      reads this, words
      ensures |r| == 32 * words.Length - bitCnt
    {
      AllBits(words[..])[bitCnt..]
    }

    /** bitmap_create: storage with arbitrary contents, then every bit cleared. */
    constructor (n: nat)
      ensures Valid() && bitCnt == n && fresh(words)
      ensures Bits() == seq(n, _ => false)
    {
      bitCnt := n;
      words := new bv32[ElemCnt(n)];
      new;
      SetMultiple(0, n, false);
    }

    method BitTest(idx: nat) returns (r: bool)
      requires Valid() && idx < bitCnt
      ensures r == Bits()[idx]
    {
      r := HasBit(words[ElemIdx(idx)], BitIdx(idx));
      assert r == AllBits(words[..])[idx];
    }

    /** The map's storage as bitmap_write copies it out, byte by byte. */
    method Bytes() returns (r: seq<Byte>)
      requires Valid()
      ensures r == Image(Bits() + Pad())
    {
      hide AllBits, MemoryByte, ImageByte;
      r := [];
      var j := 0;
      while j < 4 * words.Length
        invariant 0 <= j <= 4 * words.Length
        invariant r == Image(AllBits(words[..]))[..j]
      {
        ByteInMemory(words[..], j);
        r := r + [MemoryByte(words[j / 4], j % 4)];
        j := j + 1;
      }
      assert r == Image(AllBits(words[..]));
      assert Bits() + Pad() == AllBits(words[..]);
    }

    /** The words that BYTES make up, as file_read_at copies them in. */
    method CopyWords(bytes: seq<Byte>)
      requires Valid() && |bytes| == 4 * words.Length
      modifies words
      ensures AllBits(words[..]) == BitsOf(bytes)
    {
      hide HasBit, WordOf, BitsOf, BitIdx;
      ghost var bits := BitsOf(bytes);
      var j := 0;
      while j < words.Length
        invariant 0 <= j <= words.Length
        invariant forall m, k :: 0 <= m < j && 0 <= k < 32 ==> HasBit(words[m], BitIdx(k)) == bits[32 * m + k]
      {
        var part := BitsOf(bytes)[32 * j..32 * j + 32];
        forall k | 0 <= k < 32 ensures HasBit(WordOf(part, 32), BitIdx(k)) == bits[32 * j + k] {
          WordOfBits(part, 32, k);
        }
        words[j] := WordOf(part, 32);
        j := j + 1;
      }
      WordsAre(words[..], bits);
    }

    /** bitmap_read, when the file holds BYTES; the bits past the end are cleared. */
    method ReadBytes(bytes: seq<Byte>)
      requires Valid() && |bytes| == 4 * words.Length
      modifies words
      ensures Bits() == BitsOf(bytes)[..bitCnt] && Pad() == seq(|Pad()|, _ => false)
    {
      if bitCnt > 0 {
        CopyWords(bytes);
        hide HasBit, BitsOf, LastMask, And, BitIdx, AllBits;
        ghost var before := words[..];
        var last := words.Length - 1;
        words[last] := And(words[last], LastMask(BitIdx(bitCnt)));
        MaskLast(before, words[..], bitCnt);
      }
    }

    method BitSet(idx: nat, value: bool)
      requires Valid() && idx < bitCnt
      modifies words
      ensures Bits() == old(Bits())[idx := value] && Pad() == old(Pad())
    {
      hide HasBit, WithBit, WithoutBit, Test, AllBits;
      ghost var before := words[..];
      SetOneBitAll(before, idx);
      if value {
        words[ElemIdx(idx)] := WithBit(words[ElemIdx(idx)], BitIdx(idx));
        assert words[..] == Mark(before, idx);
      } else {
        words[ElemIdx(idx)] := WithoutBit(words[ElemIdx(idx)], BitIdx(idx));
        assert words[..] == Reset(before, idx);
      }
      assert AllBits(words[..]) == AllBits(before)[idx := value];
    }

    method SetMultiple(start: nat, cnt: nat, value: bool)
      requires Valid() && start + cnt <= bitCnt
      modifies words
      ensures Bits() == SetRun(old(Bits()), start, cnt, value) && Pad() == old(Pad())
    {
      var i := 0;
      while i < cnt
        invariant 0 <= i <= cnt
        invariant Bits() == SetRun(old(Bits()), start, i, value) && Pad() == old(Pad())
      {
        BitSet(start + i, value);
        i := i + 1;
      }
    }

    method Contains(start: nat, cnt: nat, value: bool) returns (r: bool)
      requires Valid() && start + cnt <= bitCnt
      ensures r == !Run(Bits(), start, cnt, !value)
    {
      var i := 0;
      while i < cnt
        invariant 0 <= i <= cnt
        invariant forall k :: start <= k < start + i ==> Bits()[k] == !value
      {
        var b := BitTest(start + i);
        if b == value {
          return true;
        }
        i := i + 1;
      }
      r := false;
    }

    method Scan(start: nat, cnt: nat, value: bool) returns (r: Option<nat>)
      requires Valid() && start <= bitCnt
      ensures IsScan(Bits(), start, cnt, value, r)
    {
      if cnt <= bitCnt {
        var last := bitCnt - cnt;
        var i := start;
        while i <= last
          invariant start <= i
          invariant forall j :: start <= j < i ==> !Run(Bits(), j, cnt, value)
          decreases last + 1 - i
        {
          var c := Contains(i, cnt, !value);
          if !c {
            return Some(i);
          }
          i := i + 1;
        }
      }
      r := None;
    }

    method ScanAndFlip(start: nat, cnt: nat, value: bool) returns (r: Option<nat>)
      requires Valid() && start <= bitCnt
      modifies words
      ensures IsScan(old(Bits()), start, cnt, value, r) && Pad() == old(Pad())
      ensures r.None? ==> Bits() == old(Bits())
      ensures r.Some? ==> Bits() == SetRun(old(Bits()), r.value, cnt, !value)
    {
      r := Scan(start, cnt, value);
      if r.Some? {
        SetMultiple(r.value, cnt, !value);
      }
    }
  }
}
