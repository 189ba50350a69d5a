/** What a printed integer looks like: its width and where the padding goes, its
    sign and prefix, the number of its digits and the commas between them; and
    which flag character brings about what. */
module Fields {
  import opened Basics
  import opened Numerals
  import opened Formats

  /** The sign, or the blank in its place. */
  function SignText(plus: bool, space: bool, signed: bool, negative: bool): string {
    if !signed then "" else if negative then "-" else if plus then "+" else if space then " " else ""
  }

  /** "0x" or "0X" in front of a hexadecimal number other than 0, with the # flag. */
  function PrefixText(b: Base, pound: bool, value: nat): string {
    if pound && value > 0 && b == BASE_X then "0x" else if pound && value > 0 && b == BASE_UPPER_X then "0X" else ""
  }

  /** One of the four bases of the code. */
  predicate Known(b: Base) { b == BASE_D || b == BASE_O || b == BASE_X || b == BASE_UPPER_X }

  /** How many pad characters a field of WIDTH needs around a text of LENGTH. */
  function Missing(width: nat, length: nat): nat { if width > length then width - length else 0 }

  /** The text before the digits. */
  function Head(b: Base, c: Conversion, value: nat, signed: bool, negative: bool): string {
    SignText(c.plus, c.space, signed, negative) + PrefixText(b, c.pound, value)
  }

  /** The digits, highest first, with their precision. */
  function Number(b: Base, c: Conversion, value: nat): string
    requires Proper(b)
  {
    Reversed(Body(b, c, value))
  }

  lemma HeadIs(b: Base, c: Conversion, value: nat, signed: bool, negative: bool)
    requires Known(b)
    ensures Proper(b) && Sign(c, signed, negative) + Prefix(b, c, value) == Head(b, c, value, signed, negative)
  {
  }

  /** The four ways to fill a field, for every base, conversion, value and sign: spaces in front
      by default, spaces behind with the minus flag, zeros between the head and the digits with the
      zero flag; with both flags, which only a negative width argument gives, zeros and spaces. */
  lemma FieldShape(b: Base, c: Conversion, value: nat, signed: bool, negative: bool)
    requires Known(b) && Proper(b)
    ensures var head, number := Head(b, c, value, signed, negative), Number(b, c, value);
            var n := Missing(c.width, |head| + |number|);
            Rendered(b, c, value, signed, negative)
            == (if !c.minus && !c.zero then Copies(' ', n) + (head + number)
                else if c.minus && !c.zero then (head + number) + Copies(' ', n)
                else if c.zero && !c.minus then head + Copies('0', n) + number
                else head + Copies('0', n) + number + Copies(' ', n))
  {
    HeadIs(b, c, value, signed, negative);
    hide Head, Body, Copies, Sign, Prefix, Reversed;
    var sign, prefix := Sign(c, signed, negative), Prefix(b, c, value);
    var n := Pads(b, c, value, signed, negative);
    ReversedLength(Body(b, c, value));
    assert n == Missing(c.width, |Head(b, c, value, signed, negative)| + |Number(b, c, value)|);
    hide Pads;
    Concats(sign, prefix, Number(b, c, value), if !c.minus && !c.zero then Copies(' ', n) else "",
            if c.zero then Copies('0', n) else "", if c.minus then Copies(' ', n) else "");
  }

  lemma ReversedLength(s: string)
    ensures |Reversed(s)| == |s|
  {
  }

  lemma Concats(sign: string, prefix: string, body: string, front: string, middle: string, behind: string)
    ensures front + sign + prefix + middle + body + behind == front + ((sign + prefix) + middle + body) + behind
    ensures (sign + prefix) + "" + body == (sign + prefix) + body
    ensures forall s: string :: s + "" == s && "" + s == s
  {
  }

  /** A printed number is as wide as asked for, or as wide as it must be, if and only if the minus
      and zero flags do not meet where padding is needed. */
  lemma FieldWidth(b: Base, c: Conversion, value: nat, signed: bool, negative: bool)
    requires Known(b) && Proper(b)
    ensures var u := |Rendered(b, c.(width := 0), value, signed, negative)|;
            |Rendered(b, c, value, signed, negative)| == (if c.width > u then c.width else u)
            <==> !(c.minus && c.zero && c.width > u)
  {
    hide Rendered, Head, Number;
    FieldShape(b, c, value, signed, negative);
    FieldShape(b, c.(width := 0), value, signed, negative);
    SameParts(b, c, value, signed, negative);
  }

  /** The width has no part in the head or the digits. */
  lemma SameParts(b: Base, c: Conversion, value: nat, signed: bool, negative: bool)
    requires Proper(b)
    ensures Head(b, c.(width := 0), value, signed, negative) == Head(b, c, value, signed, negative)
    ensures Number(b, c.(width := 0), value) == Number(b, c, value)
  {
  }

  /** What each flag character, the width and the precision bring about, for every %d conversion a
      programmer can write and every int: '-' or a negative width argument puts the number at the
      left, '0' without '-' or a precision fills up with zeros, and otherwise spaces go in front; a
      negative number has a minus sign, others a plus sign with '+', a blank with ' '. */
  lemma PrintedField(d: Directive, v: int, args: seq<int>)
    requires AllFlags(d.flags) && '\'' !in d.flags
    ensures var c := ParseConversion(Text(d) + "d", Arguments(d) + args).c;
            var value: nat := if v < 0 then 0 - v else v;
            var width, precision := FieldValue(d.width), PrecisionValue(d.precision);
            var sign := if v < 0 then "-" else if '+' in d.flags then "+" else if ' ' in d.flags then " " else "";
            var number := Number(BASE_D, c, value);
            var n := Missing(Abs(width), |sign| + |number|);
            var left := '-' in d.flags || width < 0;
            var zeros := '0' in d.flags && '-' !in d.flags && precision < 0;
            && c.precision == precision && !c.group
            && Rendered(BASE_D, c, value, true, v < 0)
               == (if !left && !zeros then Copies(' ', n) + (sign + number)
                   else if !zeros then (sign + number) + Copies(' ', n)
                   else if !left then sign + Copies('0', n) + number
                   else sign + Copies('0', n) + number + Copies(' ', n))
  {
    hide Rendered, ParseConversion, Number, Copies, Missing, Options, Text, Arguments, AllFlags, FieldValue, PrecisionValue, Head, Abs;
    DirectiveReads(d, 'd', args);
    var c := Options(d.flags, FieldValue(d.width), PrecisionValue(d.precision));
    var value: nat := if v < 0 then 0 - v else v;
    OptionsAre(d.flags, FieldValue(d.width), PrecisionValue(d.precision));
    DecimalHead(c, value, v < 0);
    FieldShape(BASE_D, c, value, true, v < 0);
  }

  lemma OptionsAre(f: string, w: int, p: int)
    ensures var c := Options(f, w, p);
            && c.minus == ('-' in f || w < 0) && c.zero == ('0' in f && '-' !in f && p < 0)
            && c.plus == ('+' in f) && c.space == (' ' in f && '+' !in f) && c.group == ('\'' in f)
            && c.width == Abs(w) && c.precision == p
  {
  }

  lemma DecimalHead(c: Conversion, value: nat, negative: bool)
    ensures Head(BASE_D, c, value, true, negative) == if negative then "-" else if c.plus then "+" else if c.space then " " else ""
  {
  }

  /** "%0*d" with a width of -5, of 42: three zeros in front and three spaces behind, eight
      characters, where the minus flag is said to override the zero flag. */
  lemma BothPads()
    ensures var d := Directive("0", Star(-5), None, INT);
            Rendered(BASE_D, ParseConversion(Text(d) + "d", Arguments(d) + []).c, 42, true, false) == "00042   "
  {
    hide Rendered, ParseConversion, Text, Arguments, Number, Copies, AllFlags, Missing, FieldValue, PrecisionValue;
    var d := Directive("0", Star(-5), None, INT);
    ZeroFlag(d);
    var c := ParseConversion(Text(d) + "d", Arguments(d) + []).c;
    PrintedField(d, 42, []);
    FortyTwo(c);
    ThreeCopies();
  }

  lemma ZeroFlag(d: Directive)
    requires d == Directive("0", Star(-5), None, INT)
    ensures AllFlags(d.flags) && '\'' !in d.flags && '-' !in d.flags && '+' !in d.flags && ' ' !in d.flags && '0' in d.flags
    ensures FieldValue(d.width) == -5 && PrecisionValue(d.precision) == -1
  {
  }

  lemma ThreeCopies()
    ensures Missing(Abs(-5), |""| + |"42"|) == 3
    ensures "" + Copies('0', 3) + "42" + Copies(' ', 3) == "00042   "
  {
    assert Copies('0', 3) == "000" && Copies(' ', 3) == "   ";
  }

  lemma FortyTwo(c: Conversion)
    requires c.precision == -1 && !c.group
    ensures Number(BASE_D, c, 42) == "42"
  {
    NumberShape(BASE_D, c, 42);
    assert Digits(BASE_D, false, 4, 1) == ['4'] + Digits(BASE_D, false, 0, 2) == "4";
    assert Digits(BASE_D, false, 42, 0) == ['2'] + Digits(BASE_D, false, 4, 1) == "24";
    hide Digits, Number;
    TwoReversed();
    NoCopies();
  }

  lemma TwoReversed()
    ensures Reversed("24") == "42"
  {
    assert "24"[1..] == "4" && Reversed("4") == "4";
  }

  // ---- digits ----

  /** B to the power K. */
  function Power(b: nat, k: nat): nat {
    if k == 0 then 1 else b * Power(b, k - 1)
  }

  lemma Bounded(base: nat, q: nat, r: nat, p: nat)
    requires r < base
    ensures q < p ==> base * q + r < base * p
    ensures p <= q ==> base * p <= base * q + r
  {
    if q < p {
      assert base * (q + 1) <= base * p;
    }
  }

  /** There are as many digits as it takes, and no more. */
  lemma {:induction false} DigitCount(b: Base, value: nat, cnt: nat)
    requires Proper(b)
    ensures var k := |Digits(b, false, value, cnt)|; value < Power(b.base, k) && (value > 0 ==> k > 0 && Power(b.base, k - 1) <= value)
    decreases value
  {
    hide Digits, Power;
    if value > 0 {
      QuotientParts(value, b.base);
      FirstDigit(b, value, cnt);
      var q, r := value / b.base, value % b.base;
      var k := |Digits(b, false, q, cnt + 1)|;
      DigitCount(b, q, cnt + 1);
      Bounded(b.base, q, r, Power(b.base, k));
      PowerNext(b.base, k);
      if q > 0 {
        Bounded(b.base, q, r, Power(b.base, k - 1));
        PowerNext(b.base, k - 1);
      } else {
        ZeroDigits(b, cnt + 1);
        PowerNone(b.base);
      }
    } else {
      ZeroDigits(b, cnt);
      PowerNone(b.base);
    }
  }

  lemma PowerNext(b: nat, k: nat)
    ensures Power(b, k + 1) == b * Power(b, k)
  {
  }

  lemma PowerNone(b: nat)
    ensures Power(b, 0) == 1
  {
  }

  lemma ZeroDigits(b: Base, cnt: nat)
    requires Proper(b)
    ensures Digits(b, false, 0, cnt) == ""
  {
  }

  /** The digits printed are those of the value behind zeros up to the precision, 1 when none is
      given and 63 at most; "#" in octal makes sure that there is a zero in front. */
  lemma NumberShape(b: Base, c: Conversion, value: nat)
    requires Known(b) && Proper(b) && !c.group
    ensures var digits := Reversed(Digits(b, false, value, 0));
            var padded := Copies('0', Missing(Wanted(c.precision), |digits|)) + digits;
            Number(b, c, value) == if c.pound && b == BASE_O && (padded == "" || padded[0] != '0') then "0" + padded else padded
  {
    var s := Digits(b, false, value, 0);
    var p := Padded(s, c.precision);
    hide Digits;
    PaddedReversed(s, c.precision);
    ReversedLength(s);
    var padded := Reversed(p);
    assert (p == "" || p[|p| - 1] != '0') <==> (padded == "" || padded[0] != '0') by { LastFirst(p); }
    AppendedReversed(p);
  }

  lemma LastFirst(p: string)
    ensures |Reversed(p)| == |p| && (p != "" ==> Reversed(p)[0] == p[|p| - 1])
  {
  }

  lemma AppendedReversed(p: string)
    ensures Reversed(p + "0") == "0" + Reversed(p)
  {
    ReversedConcat(p, "0");
    assert Reversed("0") == "0";
  }

  /** How many digits a precision asks for. */
  function Wanted(precision: int): nat { if precision < 0 then 1 else if precision > 63 then 63 else precision }

  lemma PaddedIs(s: string, precision: int)
    ensures Padded(s, precision) == s + Copies('0', Missing(Wanted(precision), |s|))
  {
    NoCopies();
    hide Copies;
    assert s + "" == s;
  }

  lemma PaddedReversed(s: string, precision: int)
    ensures Reversed(Padded(s, precision)) == Copies('0', Missing(Wanted(precision), |s|)) + Reversed(s)
  {
    hide Reversed, Copies, Padded, Missing, Wanted;
    var n := Missing(Wanted(precision), |s|);
    PaddedIs(s, precision);
    ReversedConcat(s, Copies('0', n));
    ReversedCopies('0', n);
  }

  lemma NoCopies()
    ensures Copies('0', 0) == ""
  {
  }

  /** The digit characters. */
  lemma DigitChars(b: Base, d: nat)
    requires Known(b) && d < b.base
    ensures |b.digits| == b.base
    ensures b.digits[d] == if d < 10 then ('0' as int + d) as char
                           else if b == BASE_X then ('a' as int + d - 10) as char else ('A' as int + d - 10) as char
  {
  }

  // ---- commas ----

  /** The K lowest digits of VALUE, lowest first. */
  function Low(b: Base, value: nat, k: nat): (s: string)
    requires Proper(b)
    ensures |s| == k
  {
    if k == 0 then "" else [b.digits[value % b.base]] + Low(b, value / b.base, k - 1)
  }

  lemma GroupedZero(b: Base, cnt: nat)
    requires Proper(b)
    ensures Digits(b, true, 0, cnt) == ""
  {
  }

  lemma GroupedFirst(b: Base, value: nat, cnt: nat)
    requires Proper(b) && value > 0
    ensures Digits(b, true, value, cnt)
            == (if cnt > 0 && cnt % b.group == 0 then "," else "") + ([b.digits[value % b.base]] + Digits(b, true, value / b.base, cnt + 1))
  {
  }

  lemma Cycle(cnt: nat, g: nat)
    requires g > 0
    ensures (cnt + g) % g == cnt % g
  {
    var q, r := cnt / g, cnt % g;
    assert cnt + g == g * (q + 1) + r;
    RemainderIs(cnt + g, g, q + 1, r);
  }

  lemma RemainderIs(x: nat, g: nat, q: nat, r: nat)
    requires x == g * q + r && r < g
    ensures x % g == r
  {
    var q', r' := x / g, x % g;
    assert x == g * q' + r';
    assert q' < q ==> g * (q' + 1) <= g * q;
    assert q < q' ==> g * (q + 1) <= g * q';
  }

  /** Commas depend on the number of digits before only up to whole groups. */
  lemma {:induction false} GroupedShift(b: Base, value: nat, cnt: nat)
    requires Proper(b) && cnt > 0
    ensures Digits(b, true, value, cnt + b.group) == Digits(b, true, value, cnt)
    decreases value
  {
    hide Digits;
    if value == 0 {
      GroupedZero(b, cnt);
      GroupedZero(b, cnt + b.group);
    } else {
      Cycle(cnt, b.group);
      GroupedFirst(b, value, cnt);
      GroupedFirst(b, value, cnt + b.group);
      QuotientParts(value, b.base);
      GroupedShift(b, value / b.base, cnt + 1);
    }
  }

  /** After a whole group comes a comma, and then it starts over. */
  lemma GroupedComma(b: Base, value: nat)
    requires Proper(b) && value > 0
    ensures Digits(b, true, value, b.group) == "," + Digits(b, true, value, 0)
  {
    hide Digits;
    GroupedFirst(b, value, b.group);
    GroupedFirst(b, value, 0);
    GroupedShift(b, value / b.base, 1);
  }

  /** Within a group there is no comma. */
  lemma {:induction false} GroupedWithin(b: Base, value: nat, cnt: nat)
    requires Proper(b) && cnt <= b.group
    ensures var k := b.group - cnt;
            && (value >= Power(b.base, k) ==>
                  cnt < b.group || cnt == 0 ==> Digits(b, true, value, cnt) == Low(b, value, k) + Digits(b, true, Quotient(b, value, k), b.group))
            && (value < Power(b.base, k) && (cnt < b.group || cnt == 0) ==> Digits(b, true, value, cnt) == Digits(b, false, value, cnt))
    decreases b.group - cnt
  {
    hide Digits, Power;
    var k := b.group - cnt;
    if k == 0 {
      PowerNone(b.base);
      assert "" + Digits(b, true, value, b.group) == Digits(b, true, value, b.group);
    } else if value == 0 {
      GroupedZero(b, cnt);
      ZeroDigits(b, cnt);
      PowerPositive(b.base, k);
    } else {
      GroupedFirst(b, value, cnt);
      FirstDigit(b, value, cnt);
      QuotientParts(value, b.base);
      var q, r := value / b.base, value % b.base;
      PowerNext(b.base, k - 1);
      Bounded(b.base, q, r, Power(b.base, k - 1));
      SmallRemainder(cnt, b.group);
      GroupedWithin(b, q, cnt + 1);
      if k == 1 {
        PowerNone(b.base);
        if q == 0 {
          GroupedZero(b, cnt + 1);
          ZeroDigits(b, cnt + 1);
        }
      }
    }
  }

  lemma SmallRemainder(cnt: nat, g: nat)
    requires cnt < g
    ensures cnt % g == cnt
  {
  }

  lemma {:induction false} PowerPositive(b: nat, k: nat)
    requires b > 0
    ensures Power(b, k) > 0
  {
    if k > 0 {
      PowerPositive(b, k - 1);
    }
  }

  /** VALUE without its K lowest digits. */
  function Quotient(b: Base, value: nat, k: nat): nat
    requires Proper(b)
  {
    if k == 0 then value else Quotient(b, value / b.base, k - 1)
  }

  /** With the grouping flag, a number of more than one group is its lowest group, a comma, and the
      rest, grouped the same way (lowest digit first); a smaller one has no comma. */
  lemma GroupedDigits(b: Base, value: nat)
    requires Proper(b)
    ensures Digits(b, true, value, 0)
            == if value < Power(b.base, b.group) then Digits(b, false, value, 0)
               else Low(b, value, b.group) + "," + Digits(b, true, Quotient(b, value, b.group), 0)
  {
    hide Digits, Power, Low, Quotient;
    GroupedWithin(b, value, 0);
    if value >= Power(b.base, b.group) {
      QuotientPositive(b, value, b.group);
      GroupedComma(b, Quotient(b, value, b.group));
      var rest := Digits(b, true, Quotient(b, value, b.group), 0);
      assert Low(b, value, b.group) + ("," + rest) == Low(b, value, b.group) + "," + rest;
    }
  }

  lemma {:induction false} QuotientPositive(b: Base, value: nat, k: nat)
    requires Proper(b) && value >= Power(b.base, k)
    ensures Quotient(b, value, k) > 0
  {
    hide Power;
    if k == 0 {
      PowerNone(b.base);
    } else {
      PowerPositive(b.base, k);
      QuotientParts(value, b.base);
      PowerNext(b.base, k - 1);
      Bounded(b.base, value / b.base, value % b.base, Power(b.base, k - 1));
      QuotientPositive(b, value / b.base, k - 1);
    }
  }
}
