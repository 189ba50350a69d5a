/** What integer conversions print, and what atoi reads back. */
module Numerals {
  import opened Basics

  /** A printf conversion; a precision of -1 means none was given. */
  datatype Conversion = Conversion(minus: bool, plus: bool, space: bool, pound: bool, zero: bool, group: bool,
                                   width: nat, precision: int)

  /** A number base: its digits, its "x" character if any, and the size of digit groups. */
  datatype Base = Base(base: nat, digits: string, x: string, group: nat)

  const BASE_D := Base(10, "0123456789", "", 3)
  const BASE_O := Base(8, "01234567", "", 3)
  const BASE_X := Base(16, "0123456789abcdef", "x", 4)
  const BASE_UPPER_X := Base(16, "0123456789ABCDEF", "X", 4)

  predicate Proper(b: Base) {
    8 <= b.base == |b.digits| && |b.x| <= 1 && 3 <= b.group
  }

  /** The digits of VALUE, lowest first, with commas between groups when asked;
      CNT digits have gone before. */
  function Digits(b: Base, group: bool, value: nat, cnt: nat): string
    requires Proper(b)
    decreases value
  {
    if value == 0 then ""
    else
      (if group && cnt > 0 && cnt % b.group == 0 then "," else "")
      + [b.digits[value % b.base]] + Digits(b, group, value / b.base, cnt + 1)
  }

  function Copies(ch: char, n: nat): (s: string)
    ensures |s| == n && forall i :: 0 <= i < n ==> s[i] == ch
  {
    if n == 0 then "" else [ch] + Copies(ch, n - 1)
  }

  /** S padded with zeros to match a precision; the digit buffer has 64 places and one is kept free. */
  function Padded(s: string, precision: int): string {
    var want := if precision < 0 then 1 else if precision > 63 then 63 else precision;
    if |s| < want then s + Copies('0', want - |s|) else s
  }

  /** The digit buffer, lowest digit first. */
  function Body(b: Base, c: Conversion, value: nat): string
    requires Proper(b)
  {
    var s := Padded(Digits(b, c.group, value, 0), c.precision);
    if c.pound && b.base == 8 && (s == "" || s[|s| - 1] != '0') then s + "0" else s
  }

  function Sign(c: Conversion, signed: bool, negative: bool): string {
    if !signed then ""
    else if c.plus then (if negative then "-" else "+")
    else if c.space then (if negative then "-" else " ")
    else if negative then "-" else ""
  }

  function Prefix(b: Base, c: Conversion, value: nat): string {
    if c.pound && value != 0 && b.x != "" then "0" + b.x else ""
  }

  function Pads(b: Base, c: Conversion, value: nat, signed: bool, negative: bool): nat
    requires Proper(b)
  {
    var used := |Body(b, c, value)| + |Prefix(b, c, value)| + |Sign(c, signed, negative)|;
    if c.width > used then c.width - used else 0
  }

  /** What format_integer outputs. */
  function Rendered(b: Base, c: Conversion, value: nat, signed: bool, negative: bool): string
    requires Proper(b)
  {
    var n := Pads(b, c, value, signed, negative);
    (if !c.minus && !c.zero then Copies(' ', n) else "")
    + Sign(c, signed, negative) + Prefix(b, c, value)
    + (if c.zero then Copies('0', n) else "")
    + Reversed(Body(b, c, value))
    + (if c.minus then Copies(' ', n) else "")
  }

  // ---- reading ----

  predicate IsSpace(ch: char) { ch in " \n\r\t" || ch == 11 as char || ch == 12 as char }

  predicate IsDigit(ch: char) { '0' <= ch <= '9' }

  function DigitOf(ch: char): nat
    requires IsDigit(ch)
  {
    ch as int - '0' as int
  }

  function SkipSpace(s: string): string {
    if s != "" && IsSpace(s[0]) then SkipSpace(s[1..]) else s
  }

  /** The digits at the start of S. */
  function DigitRun(s: string): (r: string)
    ensures forall i :: 0 <= i < |r| ==> IsDigit(r[i])
  {
    if s != "" && IsDigit(s[0]) then [s[0]] + DigitRun(s[1..]) else ""
  }

  function Value(s: string): nat
    requires forall i :: 0 <= i < |s| ==> IsDigit(s[i])
  {
    if s == "" then 0 else Value(s[..|s| - 1]) * 10 + DigitOf(s[|s| - 1])
  }

  /** The integer that the string S denotes to atoi. */
  function Parsed(s: string): int {
    var t := SkipSpace(s);
    if t != "" && t[0] == '-' then 0 - Value(DigitRun(t[1..]))
    else if t != "" && t[0] == '+' then Value(DigitRun(t[1..]))
    else Value(DigitRun(t))
  }

  // ---- the round trip ----

  ghost predicate AllDigits(s: string) {
    forall i :: 0 <= i < |s| ==> IsDigit(s[i])
  }

  lemma {:induction false} SkipSpaces(n: nat, s: string)
    ensures SkipSpace(Copies(' ', n) + s) == SkipSpace(s)
  {
    if n == 0 {
      assert Copies(' ', 0) + s == s;
    } else {
      SkipSpaces(n - 1, s);
      assert (Copies(' ', n) + s)[1..] == Copies(' ', n - 1) + s;
    }
  }

  lemma {:induction false} RunOfDigits(s: string, t: string)
    requires AllDigits(s) && (t == "" || !IsDigit(t[0]))
    ensures DigitRun(s + t) == s
  {
    if s == "" {
      assert s + t == t;
    } else {
      assert (s + t)[1..] == s[1..] + t;
      RunOfDigits(s[1..], t);
    }
  }

  lemma {:induction false} LeadingZeros(n: nat, s: string)
    requires AllDigits(s)
    ensures AllDigits(Copies('0', n) + s) && Value(Copies('0', n) + s) == Value(s)
    decreases n + |s|
  {
    var z := Copies('0', n);
    if s == "" {
      assert z + s == z;
      if n > 0 {
        assert z[..n - 1] == Copies('0', n - 1);
        LeadingZeros(n - 1, "");
        assert Copies('0', n - 1) + "" == Copies('0', n - 1);
      }
    } else {
      var m := |s| - 1;
      LeadingZeros(n, s[..m]);
      assert (z + s)[..n + m] == z + s[..m];
    }
  }

  lemma {:induction false} ReversedConcat(s: string, t: string)
    ensures Reversed(s + t) == Reversed(t) + Reversed(s)
  {
    if s == "" {
      assert s + t == t;
    } else {
      assert (s + t)[1..] == s[1..] + t;
      ReversedConcat(s[1..], t);
    }
  }

  lemma {:induction false} ReversedCopies(ch: char, n: nat)
    ensures Reversed(Copies(ch, n)) == Copies(ch, n)
  {
    if n > 0 {
      ReversedCopies(ch, n - 1);
      assert Copies(ch, n - 1) + [ch] == Copies(ch, n);
    }
  }

  lemma DecimalDigit(d: nat)
    requires d < 10
    ensures IsDigit(BASE_D.digits[d]) && DigitOf(BASE_D.digits[d]) == d
  {
  }

  lemma AppendDigit(s: string, d: char, rest: string)
    requires s == [d] + rest && IsDigit(d) && AllDigits(Reversed(rest))
    ensures AllDigits(Reversed(s)) && Value(Reversed(s)) == Value(Reversed(rest)) * 10 + DigitOf(d)
  {
    assert s[1..] == rest && Reversed(s) == Reversed(rest) + [d];
    var r := Reversed(rest) + [d];
    assert r[..|r| - 1] == Reversed(rest);
  }

  // ---- any base ----

  ghost predicate Distinct(digits: string) {
    forall i, j :: 0 <= i < j < |digits| ==> digits[i] != digits[j]
  }

  /** The position of CH among the digits. */
  ghost function DigitIn(digits: string, ch: char): nat {
    if digits == "" || digits[0] == ch then 0 else 1 + DigitIn(digits[1..], ch)
  }

  lemma {:induction false} DigitInAt(digits: string, d: nat)
    requires Distinct(digits) && d < |digits|
    ensures DigitIn(digits, digits[d]) == d
  {
    if d > 0 {
      assert digits[1..][d - 1] == digits[d];
      DigitInAt(digits[1..], d - 1);
    }
  }

  /** The number that digits stand for, lowest first. */
  ghost function Denoted(b: Base, s: string): nat {
    if s == "" then 0 else DigitIn(b.digits, s[0]) + b.base * Denoted(b, s[1..])
  }

  lemma QuotientParts(value: nat, m: nat)
    requires m >= 8 && value > 0
    ensures value == value % m + m * (value / m) && value / m < value
  {
    var q := value / m;
    assert q >= value ==> m * q >= 8 * value;
  }

  lemma FirstDigit(b: Base, value: nat, cnt: nat)
    requires Proper(b) && value > 0
    ensures Digits(b, false, value, cnt) == [b.digits[value % b.base]] + Digits(b, false, value / b.base, cnt + 1)
  {
  }

  lemma DenotedFirst(b: Base, ch: char, rest: string)
    ensures Denoted(b, [ch] + rest) == DigitIn(b.digits, ch) + b.base * Denoted(b, rest)
  {
    assert ([ch] + rest)[1..] == rest;
  }

  lemma ZeroDenoted(b: Base, cnt: nat)
    requires Proper(b)
    ensures Denoted(b, Digits(b, false, 0, cnt)) == 0
  {
  }

  /** In every base the digits denote the number. */
  lemma {:induction false} DigitsDenote(b: Base, value: nat, cnt: nat)
    requires Proper(b) && Distinct(b.digits)
    ensures Denoted(b, Digits(b, false, value, cnt)) == value
    decreases value
  {
    hide Digits, Denoted, DigitIn, Distinct;
    if value == 0 {
      ZeroDenoted(b, cnt);
    } else {
      QuotientParts(value, b.base);
      FirstDigit(b, value, cnt);
      var q, r := value / b.base, value % b.base;
      DigitsDenote(b, q, cnt + 1);
      DigitInAt(b.digits, r);
      DenotedFirst(b, b.digits[r], Digits(b, false, q, cnt + 1));
    }
  }

  predicate Ascending(digits: string) {
    forall i :: 0 < i < |digits| ==> digits[i - 1] < digits[i]
  }

  lemma {:induction false} AscendingApart(digits: string, i: nat, j: nat)
    requires Ascending(digits) && i < j < |digits|
    ensures digits[i] < digits[j]
  {
    if i < j - 1 {
      AscendingApart(digits, i, j - 1);
    }
  }

  lemma BaseDistinct(b: Base)
    requires b == BASE_D || b == BASE_O || b == BASE_X || b == BASE_UPPER_X
    ensures Proper(b) && Distinct(b.digits)
  {
    assert Ascending(b.digits);
    var digits := b.digits;
    forall i, j | 0 <= i < j < |digits| ensures digits[i] != digits[j] {
      AscendingApart(digits, i, j);
    }
  }

  /** So they do in the four bases of printf. */
  lemma BasesDenote(b: Base, value: nat)
    requires b == BASE_D || b == BASE_O || b == BASE_X || b == BASE_UPPER_X
    ensures Denoted(b, Digits(b, false, value, 0)) == value
  {
    hide Digits, Denoted, Distinct;
    BaseDistinct(b);
    DigitsDenote(b, value, 0);
  }

  /** The digits of a number, read forwards, denote it. */
  lemma {:induction false} DigitsValue(value: nat, cnt: nat)
    ensures AllDigits(Reversed(Digits(BASE_D, false, value, cnt)))
    ensures Value(Reversed(Digits(BASE_D, false, value, cnt))) == value
    decreases value
  {
    if value != 0 {
      var d := BASE_D.digits[value % 10];
      DecimalDigit(value % 10);
      var rest := Digits(BASE_D, false, value / 10, cnt + 1);
      DigitsValue(value / 10, cnt + 1);
      var s := Digits(BASE_D, false, value, cnt);
      assert s == [d] + rest;
      hide Digits;
      AppendDigit(s, d, rest);
    }
  }

  lemma PaddedValue(s: string, precision: int)
    requires AllDigits(Reversed(s))
    ensures AllDigits(Reversed(Padded(s, precision))) && Value(Reversed(Padded(s, precision))) == Value(Reversed(s))
  {
    var want := if precision < 0 then 1 else if precision > 63 then 63 else precision;
    if |s| < want {
      var n := want - |s|;
      ReversedConcat(s, Copies('0', n));
      ReversedCopies('0', n);
      hide Reversed, Value, Copies;
      LeadingZeros(n, Reversed(s));
    }
  }

  /** The body read forwards is some zeros and then the number. */
  lemma BodyValue(c: Conversion, value: nat)
    requires !c.group
    ensures AllDigits(Reversed(Body(BASE_D, c, value))) && Value(Reversed(Body(BASE_D, c, value))) == value
  {
    DigitsValue(value, 0);
    PaddedValue(Digits(BASE_D, false, value, 0), c.precision);
    hide Digits, Padded, Reversed, Value, AllDigits;
  }

  /** Spaces in front, the sign, all the digits with the zeros that fill them up, and spaces behind. */
  ghost function Front(c: Conversion, n: nat): string { if !c.minus && !c.zero then Copies(' ', n) else "" }

  ghost function Filled(c: Conversion, n: nat, body: string): string { if c.zero then Copies('0', n) + body else body }

  ghost function Behind(c: Conversion, n: nat): string { if c.minus then Copies(' ', n) else "" }

  lemma RenderedParts(c: Conversion, value: nat, negative: bool)
    ensures var n := Pads(BASE_D, c, value, true, negative);
            Rendered(BASE_D, c, value, true, negative)
            == Front(c, n) + (Sign(c, true, negative)
                              + (Filled(c, n, Reversed(Body(BASE_D, c, value))) + Behind(c, n)))
  {
    hide Body, Pads, Copies, Reversed, Sign;
    assert Prefix(BASE_D, c, value) == "";
  }

  /** atoi of what %d printed is the number, for every combination of flags (but
      grouping), width and precision. */
  lemma RoundTrip(c: Conversion, v: int)
    requires !c.group
    ensures var value: nat := if v < 0 then 0 - v else v;
            Parsed(Rendered(BASE_D, c, value, true, v < 0)) == v
  {
    hide Rendered, Body, Digits, Pads, Parsed, Value, DigitRun, Filled, Behind, Front, Sign, AllDigits, Reversed;
    var value: nat := if v < 0 then 0 - v else v;
    var n := Pads(BASE_D, c, value, true, v < 0);
    RenderedParts(c, value, v < 0);
    BodyValue(c, value);
    var body := Reversed(Body(BASE_D, c, value));
    FilledValue(c, n, body);
    var digits, tail, sign := Filled(c, n, body), Behind(c, n), Sign(c, true, v < 0);
    Spacing(c, n, v < 0);
    RunOfDigits(digits, tail);
    ParsedSpaces(Front(c, n), sign + (digits + tail));
    ParsedParts(sign, digits, tail, v < 0);
  }

  lemma FilledValue(c: Conversion, n: nat, body: string)
    requires AllDigits(body)
    ensures AllDigits(Filled(c, n, body)) && Value(Filled(c, n, body)) == Value(body)
  {
    LeadingZeros(n, body);
  }

  lemma Spacing(c: Conversion, n: nat, negative: bool)
    ensures forall i :: 0 <= i < |Front(c, n)| ==> Front(c, n)[i] == ' '
    ensures forall i :: 0 <= i < |Behind(c, n)| ==> Behind(c, n)[i] == ' '
    ensures var sign := Sign(c, true, negative);
            if negative then sign == "-" else sign == "" || sign == "+" || sign == " "
  {
  }

  lemma ParsedSpaces(front: string, s: string)
    requires forall i :: 0 <= i < |front| ==> front[i] == ' '
    ensures Parsed(front + s) == Parsed(s)
  {
    assert front == Copies(' ', |front|);
    SkipSpaces(|front|, s);
    hide Value, DigitRun, SkipSpace;
  }

  /** Reading a sign, digits and trailing spaces. */
  lemma ParsedParts(sign: string, digits: string, tail: string, negative: bool)
    requires AllDigits(digits) && DigitRun(digits + tail) == digits
    requires forall i :: 0 <= i < |tail| ==> tail[i] == ' '
    requires if negative then sign == "-" else sign == "" || sign == "+" || sign == " "
    ensures Parsed(sign + (digits + tail)) == if negative then 0 - Value(digits) else Value(digits)
  {
    hide Value, DigitRun;
    var rest := digits + tail;
    if sign == "-" || sign == "+" {
      assert (sign + rest)[1..] == rest;
    } else {
      if sign == " " {
        ParsedSpaces(sign, rest);
      } else {
        assert sign + rest == rest;
      }
      ParsedUnsigned(digits, tail);
    }
  }

  lemma ParsedUnsigned(digits: string, tail: string)
    requires AllDigits(digits) && DigitRun(digits + tail) == digits
    requires forall i :: 0 <= i < |tail| ==> tail[i] == ' '
    ensures Parsed(digits + tail) == Value(digits)
  {
    if digits == "" {
      ParsedSpaces(tail, "");
      assert digits + tail == tail + "";
    } else {
      hide Value, DigitRun;
      var s := digits + tail;
      assert s[0] == digits[0] && IsDigit(s[0]);
    }
  }

  // ---- what atoi reads ----

  /** White space in the C locale: blank, form feed, newline, return, tab and vertical tab. */
  ghost predicate White(w: string) {
    forall i :: 0 <= i < |w| ==> w[i] as int in {32, 12, 10, 13, 9, 11}
  }

  lemma {:induction false} WhiteSkipped(w: string, s: string)
    requires White(w)
    ensures SkipSpace(w + s) == SkipSpace(s)
  {
    if w == "" {
      assert w + s == s;
    } else {
      assert (w + s)[1..] == w[1..] + s && IsSpace(w[0]);
      WhiteSkipped(w[1..], s);
    }
  }

  /** White space in front makes no difference. */
  lemma WhiteParsed(w: string, s: string)
    requires White(w)
    ensures Parsed(w + s) == Parsed(s)
  {
    WhiteSkipped(w, s);
  }

  /** What atoi reads, in full: after white space and one sign, the digits up to the first other
      character. */
  lemma ParsedExactly(w: string, sign: string, digits: string, tail: string)
    requires White(w) && sign in {"", "+", "-"} && AllDigits(digits) && (tail == "" || !IsDigit(tail[0]))
    requires sign == "" && digits == "" && tail != "" ==> !IsSpace(tail[0]) && tail[0] != '+' && tail[0] != '-'
    ensures Parsed(w + (sign + (digits + tail))) == if sign == "-" then 0 - Value(digits) else Value(digits)
  {
    var t := sign + (digits + tail);
    WhiteParsed(w, t);
    hide Value, DigitRun, AllDigits;
    RunOfDigits(digits, tail);
    SignStarts(sign, digits, tail);
    if sign == "" {
      assert t == digits + tail;
    } else {
      assert t[1..] == digits + tail;
    }
  }

  lemma SignStarts(sign: string, digits: string, tail: string)
    requires sign in {"", "+", "-"} && AllDigits(digits) && (tail == "" || !IsDigit(tail[0]))
    requires sign == "" && digits == "" && tail != "" ==> !IsSpace(tail[0]) && tail[0] != '+' && tail[0] != '-'
    ensures var t := sign + (digits + tail);
            && SkipSpace(t) == t
            && (sign == "" && t != "" ==> t[0] != '+' && t[0] != '-')
            && (sign != "" ==> t != "" && t[0] == sign[0])
  {
    var t := sign + (digits + tail);
    if sign == "" && digits != "" {
      assert t[0] == digits[0] && IsDigit(digits[0]);
    }
  }
}
