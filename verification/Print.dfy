/** format_integer and vsnprintf's output, and atoi. */
module Print {
  import opened Basics
  import opened Numerals

  /** vsnprintf's state: where the output goes and how long it has become.  OUT is everything that was output. */
  class Sink {
    const buffer: array<char>
    const bufSize: nat
    var pos: nat
    var length: nat
    ghost var out: string

    ghost function MaxLength(): nat { if bufSize > 0 then bufSize - 1 else 0 }

    /** The buffer holds as much of the output as fits. */
    ghost predicate Valid()
      reads this, buffer
    {
      && bufSize <= buffer.Length && length == |out|
      && pos == (if length < MaxLength() then length else MaxLength())
      && buffer[..pos] == out[..pos]
    }

    constructor (b: array<char>, size: nat)
      requires size <= b.Length
      ensures Valid() && buffer == b && bufSize == size && out == ""
    {
      buffer, bufSize := b, size;
      pos, length, out := 0, 0, "";
    }

    /** vsnprintf_helper. */
    method Put(ch: char)
      requires Valid()
      modifies this, buffer
      ensures Valid() && out == old(out) + [ch]
      ensures forall i :: MaxLength() <= i < buffer.Length ==> buffer[i] == old(buffer[i])
    {
      var maxLength := if bufSize > 0 then bufSize - 1 else 0;
      if length < maxLength {
        buffer[pos] := ch;
        pos := pos + 1;
      }
      length := length + 1;
      out := out + [ch];
      assert out[..pos] == old(out)[..old(pos)] + (if old(pos) < pos then [ch] else []);
    }

    /** output_dup. */
    method PutCopies(ch: char, cnt: nat)
      requires Valid()
      modifies this, buffer
      ensures Valid() && out == old(out) + Copies(ch, cnt)
      ensures forall i :: MaxLength() <= i < buffer.Length ==> buffer[i] == old(buffer[i])
    {
      var i := 0;
      assert old(out) + Copies(ch, 0) == old(out);
      while i < cnt
        invariant i <= cnt && Valid() && out == old(out) + Copies(ch, i)
        invariant forall j :: MaxLength() <= j < buffer.Length ==> buffer[j] == old(buffer[j])
      {
        CopiesNext(ch, i);
        Put(ch);
        i := i + 1;
      }
    }

    /** output_dup under a condition. */
    method PutWhen(cond: bool, ch: char, cnt: nat)
      requires Valid()
      modifies this, buffer
      ensures Valid() && out == old(out) + (if cond then Copies(ch, cnt) else "")
      ensures forall i :: MaxLength() <= i < buffer.Length ==> buffer[i] == old(buffer[i])
    {
      if cond {
        PutCopies(ch, cnt);
      }
    }

    /** The one or two characters of a sign or a prefix. */
    method PutString(s: string)
      requires Valid()
      modifies this, buffer
      ensures Valid() && out == old(out) + s
      ensures forall i :: MaxLength() <= i < buffer.Length ==> buffer[i] == old(buffer[i])
    {
      var i := 0;
      while i < |s|
        invariant i <= |s| && Valid() && out == old(out) + s[..i]
        invariant forall j :: MaxLength() <= j < buffer.Length ==> buffer[j] == old(buffer[j])
      {
        assert s[..i + 1] == s[..i] + [s[i]];
        Put(s[i]);
        i := i + 1;
      }
      assert s[..|s|] == s;
    }

    /** The end of vsnprintf: the terminator, and the length that the whole output has. */
    method Finish() returns (n: nat)
      requires Valid()
      modifies buffer
      ensures n == |out|
      ensures bufSize > 0 ==>
                var k := if |out| < bufSize - 1 then |out| else bufSize - 1;
                buffer[..k] == out[..k] && buffer[k] == '\0'
      ensures forall i :: bufSize <= i < buffer.Length ==> buffer[i] == old(buffer[i])
    {
      if bufSize > 0 {
        buffer[pos] := '\0';
      }
      n := length;
    }
  }

  lemma CopiesNext(ch: char, n: nat)
    ensures Copies(ch, n + 1) == Copies(ch, n) + [ch]
  {
  }

  // ---- the digit buffer ----

  const BUF_SIZE := 64

  function Pow8(k: nat): nat { if k == 0 then 1 else 8 * Pow8(k - 1) }

  /** A 64-bit number has at most 22 digits in any base from 8 up. */
  lemma MaxDigits()
    ensures Pow8(22) >= 0x1_0000_0000_0000_0000
  {
    assert Pow8(4) == 4096;
    assert Pow8(8) == 4096 * Pow8(4);
    assert Pow8(12) == 4096 * Pow8(8);
    assert Pow8(16) == 4096 * Pow8(12);
    assert Pow8(20) == 4096 * Pow8(16);
    assert Pow8(22) == 64 * Pow8(20);
  }

  lemma DivideOut(value: nat, base: nat, k: nat)
    requires 8 <= base && 0 < value < Pow8(k)
    ensures k > 0 && value / base < Pow8(k - 1) && value / base < value
  {
    assert k > 0;
    var p := Pow8(k - 1);
    QuotientLess(value, base, p);
    QuotientLess(value, base, value);
  }

  lemma QuotientLess(value: nat, base: nat, p: nat)
    requires 8 <= base && value < 8 * p
    ensures value / base < p
  {
    var q := value / base;
    assert q * base <= value;
    assert q >= p ==> q * base >= p * 8;
  }

  /** The first loop of format_integer: the digits, lowest first. */
  method PutDigits(buf: array<char>, b: Base, group: bool, value0: nat) returns (cp: nat)
    requires buf.Length == BUF_SIZE && Proper(b) && value0 < 0x1_0000_0000_0000_0000
    modifies buf
    ensures cp <= 44 && buf[..cp] == Digits(b, group, value0, 0)
  {
    hide Digits, Pow8;
    MaxDigits();
    var value: nat, cnt: nat := value0, 0;
    cp := 0;
    while value > 0
      invariant cnt <= 22 && cp <= 2 * cnt && value < Pow8(22 - cnt)
      invariant buf[..cp] + Digits(b, group, value, cnt) == Digits(b, group, value0, 0)
      decreases value
    {
      DivideOut(value, b.base, 22 - cnt);
      DigitsNext(b, group, value, cnt);
      ghost var s := buf[..cp];
      var comma := group && cnt > 0 && cnt % b.group == 0;
      if comma {
        buf[cp] := ',';
        cp := cp + 1;
      }
      assert buf[..cp] == s + if comma then "," else "";
      buf[cp] := b.digits[value % b.base];
      cp := cp + 1;
      assert buf[..cp] == s + (if comma then "," else "") + [b.digits[value % b.base]];
      value := value / b.base;
      cnt := cnt + 1;
    }
    NoDigits(b, group, cnt);
  }

  lemma DigitsNext(b: Base, group: bool, value: nat, cnt: nat)
    requires Proper(b) && value > 0
    ensures Digits(b, group, value, cnt)
            == (if group && cnt > 0 && cnt % b.group == 0 then "," else "")
               + [b.digits[value % b.base]] + Digits(b, group, value / b.base, cnt + 1)
  {
  }

  lemma NoDigits(b: Base, group: bool, cnt: nat)
    requires Proper(b)
    ensures Digits(b, group, 0, cnt) == ""
  {
  }

  /** The digit buffer of format_integer; it never overflows. */
  method FillBuffer(buf: array<char>, b: Base, c: Conversion, value: nat) returns (cp: nat)
    requires buf.Length == BUF_SIZE && Proper(b) && value < 0x1_0000_0000_0000_0000
    modifies buf
    ensures cp <= BUF_SIZE && buf[..cp] == Body(b, c, value)
  {
    hide Digits;
    cp := PutDigits(buf, b, c.group, value);
    ghost var s, n := buf[..cp], cp;
    var precision := if c.precision < 0 then 1 else c.precision;
    assert s + Copies('0', 0) == s;
    while cp < precision && cp < BUF_SIZE - 1
      invariant n <= cp <= BUF_SIZE - 1 && (cp <= precision || cp == n) && buf[..cp] == s + Copies('0', cp - n)
    {
      CopiesNext('0', cp - n);
      buf[cp] := '0';
      cp := cp + 1;
      assert buf[..cp] == buf[..cp - 1] + "0";
    }
    assert buf[..cp] == Padded(s, c.precision);
    if c.pound && b.base == 8 && (cp == 0 || buf[cp - 1] != '0') {
      buf[cp] := '0';
      cp := cp + 1;
      assert buf[..cp] == buf[..cp - 1] + "0";
    }
  }

  /** The last loop of format_integer: the buffer backwards. */
  method PutBackwards(sink: Sink, buf: array<char>, cp: nat)
    requires sink.Valid() && cp <= buf.Length && buf != sink.buffer
    modifies sink, sink.buffer
    ensures sink.Valid() && sink.out == old(sink.out) + Reversed(buf[..cp])
    ensures forall i :: sink.MaxLength() <= i < sink.buffer.Length ==> sink.buffer[i] == old(sink.buffer[i])
  {
    hide Reversed;
    ghost var s := buf[..cp];
    var i := cp;
    NoneReversed();
    assert s[cp..] == "";
    while i > 0
      invariant i <= cp && sink.Valid() && sink.out == old(sink.out) + Reversed(s[i..]) && buf[..cp] == s
      invariant forall j :: sink.MaxLength() <= j < sink.buffer.Length ==> sink.buffer[j] == old(sink.buffer[j])
    {
      i := i - 1;
      OneReversed(s, i);
      assert buf[i] == buf[..cp][i];
      sink.Put(buf[i]);
    }
    assert s[0..] == s;
  }

  lemma NoneReversed()
    ensures Reversed("") == ""
  {
  }

  lemma OneReversed(s: string, i: nat)
    requires i < |s|
    ensures Reversed(s[i..]) == Reversed(s[i + 1..]) + [s[i]]
  {
    assert s[i..][1..] == s[i + 1..];
  }

  /** format_integer: outputs exactly what the conversion asks for. */
  method FormatInteger(sink: Sink, value: nat, signed: bool, negative: bool, b: Base, c: Conversion)
    requires sink.Valid() && Proper(b) && value < 0x1_0000_0000_0000_0000
    modifies sink, sink.buffer
    ensures sink.Valid() && sink.out == old(sink.out) + Rendered(b, c, value, signed, negative)
    ensures forall i :: sink.MaxLength() <= i < sink.buffer.Length ==> sink.buffer[i] == old(sink.buffer[i])
  {
    hide Body, Reversed, Copies, Sink.Valid;
    var buf := new char[BUF_SIZE](_ => '\0');
    var cp := FillBuffer(buf, b, c, value);
    var sign := if !signed then "" else if c.plus then (if negative then "-" else "+")
                else if c.space then (if negative then "-" else " ") else if negative then "-" else "";
    var x := if c.pound && value != 0 then b.x else "";
    var used := cp + (if x != "" then 2 else 0) + |sign|;
    var pads := if c.width > used then c.width - used else 0;
    RenderedIs(b, c, value, signed, negative, sign, x, buf[..cp], pads);
    hide Rendered;
    PutField(sink, sign, x, c, pads, buf, cp);
  }

  ghost function Field(c: Conversion, sign: string, x: string, body: string, pads: nat): string {
    ((if !c.minus && !c.zero then Copies(' ', pads) else "") + sign
     + (if x != "" then "0" + x else "") + (if c.zero then Copies('0', pads) else ""))
    + Reversed(body) + (if c.minus then Copies(' ', pads) else "")
  }

  lemma RenderedIs(b: Base, c: Conversion, value: nat, signed: bool, negative: bool,
                   sign: string, x: string, body: string, pads: nat)
    requires Proper(b) && body == Body(b, c, value) && sign == Sign(c, signed, negative)
    requires x == (if c.pound && value != 0 then b.x else "")
    requires pads == var used := |body| + (if x != "" then 2 else 0) + |sign|; if c.width > used then c.width - used else 0
    ensures Rendered(b, c, value, signed, negative) == Field(c, sign, x, body, pads)
  {
    hide Body, Reversed, Copies, Sign;
    assert (if x != "" then "0" + x else "") == Prefix(b, c, value);
    assert pads == Pads(b, c, value, signed, negative);
    hide Prefix, Pads;
  }

  /** The output of format_integer, once everything has been computed. */
  method PutField(sink: Sink, sign: string, x: string, c: Conversion, pads: nat, buf: array<char>, cp: nat)
    requires sink.Valid() && |sign| <= 1 && |x| <= 1 && cp <= buf.Length && buf != sink.buffer
    modifies sink, sink.buffer
    ensures sink.Valid() && sink.out == old(sink.out) + Field(c, sign, x, buf[..cp], pads)
    ensures forall i :: sink.MaxLength() <= i < sink.buffer.Length ==> sink.buffer[i] == old(sink.buffer[i])
  {
    hide Reversed, Copies, Sink.Valid;
    PutFront(sink, sign, x, c, pads);
    PutBackwards(sink, buf, cp);
    sink.PutWhen(c.minus, ' ', pads);
  }

  /** Everything that goes before the digits. */
  method PutFront(sink: Sink, sign: string, x: string, c: Conversion, pads: nat)
    requires sink.Valid() && |sign| <= 1 && |x| <= 1
    modifies sink, sink.buffer
    ensures sink.Valid()
    ensures sink.out == old(sink.out) + ((if !c.minus && !c.zero then Copies(' ', pads) else "") + sign
                        + (if x != "" then "0" + x else "") + (if c.zero then Copies('0', pads) else ""))
    ensures forall i :: sink.MaxLength() <= i < sink.buffer.Length ==> sink.buffer[i] == old(sink.buffer[i])
  {
    hide Copies, Sink.Valid;
    ghost var o := sink.out;
    ghost var a := if !c.minus && !c.zero then Copies(' ', pads) else "";
    sink.PutWhen(!c.minus && !c.zero, ' ', pads);
    sink.PutString(sign);
    assert sink.out == o + (a + sign);
    var prefix := if x != "" then "0" + x else "";
    sink.PutString(prefix);
    assert sink.out == o + (a + sign + prefix);
    sink.PutWhen(c.zero, '0', pads);
  }

  /** snprintf of one %d conversion: the buffer gets the terminated prefix that fits,
      and the full length is returned. */
  method SnprintfInt(buffer: array<char>, bufSize: nat, c: Conversion, v: int) returns (n: nat)
    requires bufSize <= buffer.Length && -0x8000_0000 <= v < 0x8000_0000
    modifies buffer
    ensures var s := Rendered(BASE_D, c, if v < 0 then 0 - v else v, true, v < 0);
            && n == |s|
            && (bufSize > 0 ==> var k := if |s| < bufSize - 1 then |s| else bufSize - 1;
                                buffer[..k] == s[..k] && buffer[k] == '\0')
    ensures forall i :: bufSize <= i < buffer.Length ==> buffer[i] == old(buffer[i])
  {
    hide Rendered;
    var sink := new Sink(buffer, bufSize);
    FormatInteger(sink, if v < 0 then 0 - v else v, true, v < 0, BASE_D, c);
    n := sink.Finish();
  }

  // ---- atoi ----

  /** X as a 32-bit int: the arithmetic of atoi wraps around. */
  function Int32(x: int): int {
    (x + 0x8000_0000) % 0x1_0000_0000 - 0x8000_0000
  }

  lemma Int32Shift(x: int, k: int)
    ensures Int32(x + k * 0x1_0000_0000) == Int32(x)
  {
  }

  lemma Int32Step(x: int, d: nat)
    ensures Int32(Int32(x) * 10 - d) == Int32(x * 10 - d) && Int32(-Int32(x)) == Int32(-x)
  {
    var q := (x + 0x8000_0000) / 0x1_0000_0000;
    assert Int32(x) == x - q * 0x1_0000_0000;
    Int32Shift(x * 10 - d, -10 * q);
    Int32Shift(-x, q);
  }

  /** atoi: the number that the string denotes, as an int. */
  method Atoi(s: string) returns (r: int)
    ensures r == Int32(Parsed(s))
  {
    hide Int32;
    var i := SkipSpaces(s);
    ghost var t := s[i..];
    var negative := false;
    if i < |s| && s[i] == '+' {
      assert t[1..] == s[i + 1..];
      i := i + 1;
    } else if i < |s| && s[i] == '-' {
      assert t[1..] == s[i + 1..];
      negative := true;
      i := i + 1;
    }
    r := ReadDigits(s, i);
    ghost var v: int := Value(DigitRun(s[i..]));
    Int32Step(0 - v, 0);
    if !negative {
      r := Int32(-r);
    }
  }

  method SkipSpaces(s: string) returns (i: nat)
    ensures i <= |s| && s[i..] == SkipSpace(s)
  {
    i := 0;
    assert s[0..] == s;
    while i < |s| && IsSpace(s[i])
      invariant i <= |s| && SkipSpace(s[i..]) == SkipSpace(s)
    {
      assert s[i..][1..] == s[i + 1..];
      i := i + 1;
    }
  }

  /** The digits from I on, accumulated as a negative number. */
  method ReadDigits(s: string, i0: nat) returns (value: int)
    requires i0 <= |s|
    ensures value == Int32(0 - Value(DigitRun(s[i0..])))
  {
    hide Int32;
    value := 0;
    var i := i0;
    Int32Zero();
    while i < |s| && IsDigit(s[i])
      invariant i0 <= i <= |s| && AllDigits(s[i0..i]) && value == Int32(0 - Value(s[i0..i]))
    {
      AnotherDigit(s, i0, i);
      Int32Step(0 - Value(s[i0..i]), DigitOf(s[i]));
      value := Int32(value * 10 - DigitOf(s[i]));
      i := i + 1;
    }
    RunOfDigits(s[i0..i], s[i..]);
    assert s[i0..] == s[i0..i] + s[i..];
  }

  lemma Int32Zero()
    ensures Int32(0) == 0
  {
  }

  lemma AnotherDigit(s: string, i0: nat, i: nat)
    requires i0 <= i < |s| && AllDigits(s[i0..i]) && IsDigit(s[i])
    ensures AllDigits(s[i0..i + 1]) && Value(s[i0..i + 1]) == Value(s[i0..i]) * 10 + DigitOf(s[i])
  {
    var t, u := s[i0..i + 1], s[i0..i];
    assert t == u + [s[i]];
    assert (u + [s[i]])[..|u|] == u;
  }

  /** Printing an int with %d and reading it with atoi gives it back, for all ints and all
      conversions without grouping. */
  lemma PrintParse(c: Conversion, v: int)
    requires !c.group && -0x8000_0000 <= v < 0x8000_0000
    ensures Int32(Parsed(Rendered(BASE_D, c, if v < 0 then 0 - v else v, true, v < 0))) == v
  {
    hide Rendered, Parsed;
    RoundTrip(c, v);
  }
}
