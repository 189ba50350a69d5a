/** parse_conversion: the options of a printf conversion, from flags to type. */
module Formats {
  import opened Basics
  import opened Numerals

  datatype Type = CHAR | SHORT | INT | INTMAX | LONG | LONGLONG | PTRDIFFT | SIZET

  /** A parsed conversion: its options, its type, what is left of the format (the
      conversion character first) and of the arguments. */
  datatype Parse = Parse(c: Conversion, kind: Type, rest: string, args: seq<int>)

  predicate IsFlag(ch: char) { ch in "-+ #0'" }

  /** The flag characters at the start of S. */
  function FlagRun(s: string): (r: string)
    ensures r <= s && forall i :: 0 <= i < |r| ==> IsFlag(r[i])
  {
    if s != "" && IsFlag(s[0]) then [s[0]] + FlagRun(s[1..]) else ""
  }

  /** A number, or "*" for the next argument; a missing argument counts as 0. */
  datatype Number = Number(value: int, rest: string, args: seq<int>)

  function NumberAt(s: string, args: seq<int>): Number {
    if s != "" && s[0] == '*' then
      if args == [] then Number(0, s[1..], []) else Number(args[0], s[1..], args[1..])
    else Number(Value(DigitRun(s)), AfterDigits(s), args)
  }

  function AfterDigits(s: string): string {
    if s != "" && IsDigit(s[0]) then AfterDigits(s[1..]) else s
  }

  /** The precision, -1 when there is none. */
  function PrecisionAt(s: string, args: seq<int>): Number {
    if s == "" || s[0] != '.' then Number(-1, s, args)
    else var n := NumberAt(s[1..], args); if n.value < 0 then n.(value := -1) else n
  }

  /** The type and what follows it. */
  function TypeAt(s: string): (Type, string) {
    if s == "" then (INT, s)
    else if s[0] == 'h' then (if |s| > 1 && s[1] == 'h' then (CHAR, s[2..]) else (SHORT, s[1..]))
    else if s[0] == 'j' then (INTMAX, s[1..])
    else if s[0] == 'l' then (if |s| > 1 && s[1] == 'l' then (LONGLONG, s[2..]) else (LONG, s[1..]))
    else if s[0] == 't' then (PTRDIFFT, s[1..])
    else if s[0] == 'z' then (SIZET, s[1..])
    else (INT, s)
  }

  function Abs(x: int): nat { if x < 0 then -x else x }

  /** The options that flags F, width W and precision P amount to.  A negative width
      sets the minus flag after the zero flag has been looked at. */
  function Options(f: string, w: int, p: int): Conversion {
    Conversion('-' in f || w < 0, '+' in f, ' ' in f && '+' !in f, '#' in f, '0' in f && '-' !in f && p < 0, '\'' in f, Abs(w), p)
  }

  function ParseConversion(s: string, args: seq<int>): Parse {
    var f := FlagRun(s);
    var w := NumberAt(s[|f|..], args);
    var p := PrecisionAt(w.rest, w.args);
    var (kind, rest) := TypeAt(p.rest);
    Parse(Options(f, w.value, p.value), kind, rest, p.args)
  }

  // ---- the code ----

  /** The flags that the characters of F stand for, before they override each other. */
  function RawFlags(f: string): Conversion {
    Conversion('-' in f, '+' in f, ' ' in f, '#' in f, '0' in f, '\'' in f, 0, -1)
  }

  /** One case of the switch over flag characters. */
  function AddFlag(c: Conversion, ch: char): Conversion {
    match ch
    case '-' => c.(minus := true)
    case '+' => c.(plus := true)
    case ' ' => c.(space := true)
    case '#' => c.(pound := true)
    case '0' => c.(zero := true)
    case '\'' => c.(group := true)
    case _ => c
  }

  lemma FlagAdded(f: string, ch: char)
    requires IsFlag(ch)
    ensures RawFlags(f + [ch]) == AddFlag(RawFlags(f), ch)
  {
  }

  /** The loop over the flags. */
  method ReadFlags(s: string) returns (c: Conversion, i: nat)
    ensures i == |FlagRun(s)| <= |s|
    ensures var f := FlagRun(s);
            c == RawFlags(f).(space := ' ' in f && '+' !in f, zero := '0' in f && '-' !in f)
  {
    hide RawFlags, AddFlag, IsFlag, FlagRun;
    c := Conversion(false, false, false, false, false, false, 0, -1);
    i := 0;
    NoFlags();
    assert s[..0] == "" && s[0..] == s;
    while i < |s| && IsFlag(s[i])
      invariant i <= |s| && s[..i] + FlagRun(s[i..]) == FlagRun(s) && c == RawFlags(s[..i])
    {
      FlagStep(s, i);
      FlagAdded(s[..i], s[i]);
      c := AddFlag(c, s[i]);
      i := i + 1;
    }
    FlagsEnd(s[i..]);
    assert s[..i] == FlagRun(s);
    c := Override(c, FlagRun(s));
  }

  /** Minus overrides zero, and plus overrides space. */
  method Override(c0: Conversion, ghost f: string) returns (c: Conversion)
    requires c0 == RawFlags(f)
    ensures c == RawFlags(f).(space := ' ' in f && '+' !in f, zero := '0' in f && '-' !in f)
  {
    c := c0;
    if c.minus {
      c := c.(zero := false);
    }
    if c.plus {
      c := c.(space := false);
    }
  }

  lemma NoFlags()
    ensures RawFlags("") == Conversion(false, false, false, false, false, false, 0, -1)
  {
  }

  lemma FlagsEnd(s: string)
    requires s == "" || !IsFlag(s[0])
    ensures FlagRun(s) == ""
  {
  }

  lemma FlagStep(s: string, i: nat)
    requires i < |s| && IsFlag(s[i])
    ensures FlagRun(s[i..]) == [s[i]] + FlagRun(s[i + 1..])
    ensures s[..i + 1] == s[..i] + [s[i]]
  {
    assert s[i..][1..] == s[i + 1..];
  }

  /** The loop over the digits of a width or a precision. */
  method ReadNumber(s: string, i0: nat) returns (value: nat, i: nat)
    requires i0 <= |s|
    ensures i0 <= i <= |s| && value == Value(DigitRun(s[i0..])) && s[i..] == AfterDigits(s[i0..])
  {
    hide Value, DigitRun;
    value, i := 0, i0;
    assert s[i0..i0] == "" && Value("") == 0 by { NoValue(); }
    while i < |s| && IsDigit(s[i])
      invariant i0 <= i <= |s| && AllDigits(s[i0..i]) && value == Value(s[i0..i]) && AfterDigits(s[i..]) == AfterDigits(s[i0..])
    {
      ValueStep(s, i0, i);
      assert s[i..][1..] == s[i + 1..];
      value := value * 10 + DigitOf(s[i]);
      i := i + 1;
    }
    RunOfDigits(s[i0..i], s[i..]);
    assert s[i0..] == s[i0..i] + s[i..];
  }

  lemma NoValue()
    ensures Value("") == 0
  {
  }

  lemma ValueStep(s: string, i0: nat, i: nat)
    requires i0 <= i < |s| && AllDigits(s[i0..i]) && IsDigit(s[i])
    ensures AllDigits(s[i0..i + 1]) && Value(s[i0..i + 1]) == Value(s[i0..i]) * 10 + DigitOf(s[i])
  {
    var t, u := s[i0..i + 1], s[i0..i];
    assert t == u + [s[i]];
    assert (u + [s[i]])[..|u|] == u;
  }

  /** A number or "*". */
  method ReadStarOrNumber(s: string, i0: nat, args0: seq<int>) returns (value: int, i: nat, args: seq<int>)
    requires i0 <= |s|
    ensures i <= |s| && NumberAt(s[i0..], args0) == Number(value, s[i..], args)
  {
    args := args0;
    if i0 < |s| && s[i0] == '*' {
      i := i0 + 1;
      assert s[i0..][1..] == s[i..];
      if args == [] {
        value := 0;
      } else {
        value := args[0];
        args := args[1..];
      }
    } else {
      value, i := ReadNumber(s, i0);
    }
  }

  /** The part of parse_conversion that reads a precision. */
  method ReadPrecision(s: string, j0: nat, args0: seq<int>) returns (p: int, j: nat, args: seq<int>)
    requires j0 <= |s|
    ensures j <= |s| && PrecisionAt(s[j0..], args0) == Number(p, s[j..], args)
  {
    hide NumberAt;
    p, j, args := -1, j0, args0;
    if j < |s| && s[j] == '.' {
      assert s[j..][1..] == s[j + 1..];
      p, j, args := ReadStarOrNumber(s, j + 1, args);
      if p < 0 {
        p := -1;
      }
    }
  }

  lemma OptionsIs(f: string, w: int, p: int)
    ensures Options(f, w, p)
            == RawFlags(f).(space := ' ' in f && '+' !in f, zero := '0' in f && '-' !in f && p < 0,
                            minus := '-' in f || w < 0, width := Abs(w), precision := p)
  {
  }

  /** parse_conversion. */
  method Parsing(s: string, args0: seq<int>) returns (r: Parse)
    ensures r == ParseConversion(s, args0)
  {
    hide FlagRun, NumberAt, PrecisionAt, TypeAt, Options;
    var c, i := ReadFlags(s);
    var w, j, args := ReadStarOrNumber(s, i, args0);
    if w < 0 {
      c := c.(width := -w, minus := true);
    } else {
      c := c.(width := w);
    }
    var p, k, args' := ReadPrecision(s, j, args);
    c := c.(precision := p);
    if p >= 0 {
      c := c.(zero := false);
    }
    OptionsIs(FlagRun(s), w, p);
    var (kind, rest) := TypeAt(s[k..]);
    r := Parse(c, kind, rest, args');
  }

  // ---- spelling a conversion and reading it back ----

  function Mark(on: bool, ch: char): string { if on then [ch] else "" }

  /** The flags of C as a programmer writes them. */
  function Flags(c: Conversion): string {
    Mark(c.minus, '-') + Mark(c.plus, '+') + Mark(c.space, ' ') + Mark(c.pound, '#') + Mark(c.zero, '0') + Mark(c.group, '\'')
  }

  function Decimal(n: nat): string { Reversed(Digits(BASE_D, false, n, 0)) }

  function Spelled(c: Conversion): string {
    Flags(c) + Decimal(c.width) + (if c.precision >= 0 then "." + Decimal(c.precision) else "")
  }

  /** What the flag rules leave: minus overrides zero, plus overrides space, a precision overrides zero. */
  predicate Normal(c: Conversion) {
    && !(c.minus && c.zero) && !(c.plus && c.space) && !(c.precision >= 0 && c.zero) && c.precision >= -1
  }

  lemma {:induction false} FlagRunOf(f: string, t: string)
    requires AllFlags(f) && (t == "" || !IsFlag(t[0]))
    ensures FlagRun(f + t) == f
  {
    hide IsFlag;
    if f == "" {
      assert f + t == t;
    } else {
      assert (f + t)[1..] == f[1..] + t;
      FlagRunOf(f[1..], t);
    }
  }

  lemma {:induction false} AfterRun(d: string, t: string)
    requires AllDigits(d) && (t == "" || !IsDigit(t[0]))
    ensures AfterDigits(d + t) == t
  {
    if d == "" {
      assert d + t == t;
    } else {
      assert (d + t)[1..] == d[1..] + t;
      AfterRun(d[1..], t);
    }
  }

  /** A decimal number is read back, whatever follows that is not a digit. */
  lemma DecimalRead(n: nat, t: string, args: seq<int>)
    requires t == "" || (!IsDigit(t[0]) && t[0] != '*')
    ensures NumberAt(Decimal(n) + t, args) == Number(n, t, args)
  {
    DigitsValue(n, 0);
    var d := Decimal(n);
    hide Decimal;
    RunOfDigits(d, t);
    AfterRun(d, t);
    hide Value, DigitRun, AfterDigits;
    assert d != "" ==> (d + t)[0] == d[0];
    assert d == "" ==> d + t == t;
  }

  /** A width never starts with a zero, which would be a flag. */
  lemma {:induction false} DecimalStarts(n: nat, cnt: nat)
    requires n > 0
    ensures var d := Reversed(Digits(BASE_D, false, n, cnt)); d != "" && IsDigit(d[0]) && d[0] != '0'
    decreases n
  {
    var c := BASE_D.digits[n % 10];
    DecimalDigit(n % 10);
    var s, rest := Digits(BASE_D, false, n, cnt), Digits(BASE_D, false, n / 10, cnt + 1);
    assert s == [c] + rest && s[1..] == rest;
    assert Reversed(s) == Reversed(rest) + [c];
    if n >= 10 {
      DecimalStarts(n / 10, cnt + 1);
    } else {
      assert rest == "";
    }
  }

  ghost predicate AllFlags(f: string) {
    forall i :: 0 <= i < |f| ==> IsFlag(f[i])
  }

  lemma MarkAdded(f: string, on: bool, ch: char)
    requires AllFlags(f) && IsFlag(ch)
    ensures AllFlags(f + Mark(on, ch))
    ensures RawFlags(f + Mark(on, ch)) == if on then AddFlag(RawFlags(f), ch) else RawFlags(f)
  {
    hide RawFlags, AddFlag, IsFlag;
    FlagAdded(f, ch);
    assert f + "" == f;
  }

  lemma FlagsOf(c: Conversion)
    ensures AllFlags(Flags(c)) && RawFlags(Flags(c)) == c.(width := 0, precision := -1)
  {
    NoFlags();
    hide RawFlags, Mark, AllFlags;
    var f0 := "";
    NoneAll();
    var f1 := f0 + Mark(c.minus, '-');
    MarkAdded(f0, c.minus, '-');
    var f2 := f1 + Mark(c.plus, '+');
    MarkAdded(f1, c.plus, '+');
    var f3 := f2 + Mark(c.space, ' ');
    MarkAdded(f2, c.space, ' ');
    var f4 := f3 + Mark(c.pound, '#');
    MarkAdded(f3, c.pound, '#');
    var f5 := f4 + Mark(c.zero, '0');
    MarkAdded(f4, c.zero, '0');
    MarkAdded(f5, c.group, '\'');
    assert f1 == Mark(c.minus, '-');
  }

  lemma NoneAll()
    ensures AllFlags("")
  {
  }

  lemma IntType()
    ensures TypeAt("d") == (INT, "d")
  {
  }

  /** Every conversion that the flag rules allow can be written, and is read back as itself. */
  lemma SpelledReads(c: Conversion, args: seq<int>)
    requires Normal(c)
    ensures ParseConversion(Spelled(c) + "d", args) == Parse(c, INT, "d", args)
  {
    hide Flags, Decimal, RawFlags, NumberAt, PrecisionAt, FlagRun, TypeAt, Options, IsFlag, IsDigit;
    var tail := (if c.precision >= 0 then "." + Decimal(c.precision) else "") + "d";
    var f, w := Flags(c), Decimal(c.width);
    assert Spelled(c) + "d" == f + (w + tail);
    FlagsOf(c);
    TailStarts();
    WidthStarts(c.width, tail);
    FlagRunOf(f, w + tail);
    assert (f + (w + tail))[|f|..] == w + tail;
    DecimalRead(c.width, tail, args);
    PrecisionRead(c.precision, args);
    IntType();
    OptionsOf(c, f);
  }

  lemma TailStarts()
    ensures !IsFlag('.') && !IsFlag('d') && !IsDigit('.') && !IsDigit('d')
  {
  }

  lemma WidthStarts(n: nat, tail: string)
    requires tail != "" && !IsFlag(tail[0])
    ensures !IsFlag((Decimal(n) + tail)[0])
  {
    if n > 0 {
      DecimalStarts(n, 0);
    } else {
      assert Decimal(0) == "";
    }
  }

  lemma PrecisionRead(p: int, args: seq<int>)
    requires p >= -1
    ensures PrecisionAt((if p >= 0 then "." + Decimal(p) else "") + "d", args) == Number(p, "d", args)
  {
    hide Decimal, NumberAt;
    if p >= 0 {
      var s := "." + Decimal(p) + "d";
      assert s[1..] == Decimal(p) + "d";
      DecimalRead(p, "d", args);
    }
  }

  lemma OptionsOf(c: Conversion, f: string)
    requires Normal(c) && RawFlags(f) == c.(width := 0, precision := -1)
    ensures Options(f, c.width, c.precision) == c
  {
  }

  /** A width or precision as a programmer gives it: in the format, or as an argument. */
  datatype Field = Literal(n: nat) | Star(arg: int)

  function FieldText(f: Field): string {
    match f
    case Literal(n) => Decimal(n)
    case Star(_) => "*"
  }

  function FieldArgs(f: Field): seq<int> {
    match f
    case Literal(_) => []
    case Star(a) => [a]
  }

  function FieldValue(f: Field): int {
    match f
    case Literal(n) => n
    case Star(a) => a
  }

  lemma FieldRead(f: Field, t: string, args: seq<int>)
    requires t == "" || (!IsDigit(t[0]) && t[0] != '*')
    ensures NumberAt(FieldText(f) + t, FieldArgs(f) + args) == Number(FieldValue(f), t, args)
  {
    match f {
      case Literal(n) =>
        hide NumberAt, Decimal;
        DecimalRead(n, t, args);
        assert [] + args == args;
      case Star(a) =>
        hide Decimal, DigitRun, AfterDigits, Value;
        assert ("*" + t)[1..] == t && ([a] + args)[1..] == args;
    }
  }

  /** An integer conversion as a programmer writes it: any flags in any order, a width, maybe a
      precision, and the type of the argument. */
  datatype Directive = Directive(flags: string, width: Field, precision: Option<Field>, kind: Type)

  /** The length modifier for a type. */
  function Modifier(kind: Type): string {
    match kind
    case CHAR => "hh"
    case SHORT => "h"
    case INT => ""
    case INTMAX => "j"
    case LONG => "l"
    case LONGLONG => "ll"
    case PTRDIFFT => "t"
    case SIZET => "z"
  }

  /** The conversion characters of the code. */
  predicate IsConversion(x: char) { x in "diouxXcsp" }

  /** Each modifier is read as its own type. */
  lemma ModifierRead(kind: Type, x: char)
    requires IsConversion(x)
    ensures TypeAt(Modifier(kind) + [x]) == (kind, [x])
  {
    var s := Modifier(kind) + [x];
    assert |s| == |Modifier(kind)| + 1 && s[|s| - 1] == x;
    assert s[|s| - 1..] == [x];
  }

  lemma ModifierStarts(kind: Type, x: char)
    requires IsConversion(x)
    ensures var s := Modifier(kind) + [x]; !IsFlag(s[0]) && !IsDigit(s[0]) && s[0] != '*' && s[0] != '.'
  {
  }

  function PrecisionText(p: Option<Field>): string {
    if p.None? then "" else "." + FieldText(p.value)
  }

  function PrecisionArgs(p: Option<Field>): seq<int> {
    if p.None? then [] else FieldArgs(p.value)
  }

  /** A negative precision is taken as none. */
  function PrecisionValue(p: Option<Field>): int {
    if p.None? || FieldValue(p.value) < 0 then -1 else FieldValue(p.value)
  }

  function Text(d: Directive): string { d.flags + FieldText(d.width) + PrecisionText(d.precision) + Modifier(d.kind) }

  function Arguments(d: Directive): seq<int> { FieldArgs(d.width) + PrecisionArgs(d.precision) }

  lemma PrecisionFieldRead(p: Option<Field>, t: string, args: seq<int>)
    requires t != "" && !IsDigit(t[0]) && t[0] != '*' && t[0] != '.'
    ensures PrecisionAt(PrecisionText(p) + t, PrecisionArgs(p) + args) == Number(PrecisionValue(p), t, args)
  {
    hide NumberAt, FieldText, FieldArgs;
    if p.Some? {
      var s := PrecisionText(p) + t;
      assert s[0] == '.' && s[1..] == FieldText(p.value) + t;
      FieldRead(p.value, t, args);
    } else {
      assert [] + args == args && "" + t == t;
    }
  }

  lemma FieldStarts(f: Field, tail: string)
    requires tail != "" && !IsFlag(tail[0])
    ensures !IsFlag((FieldText(f) + tail)[0])
  {
    if f.Literal? {
      WidthStarts(f.n, tail);
    }
  }

  /** Every conversion a programmer can write is read as its flags, width, precision and length
      modifier say, and takes its own arguments and no others. */
  lemma DirectiveReads(d: Directive, x: char, args: seq<int>)
    requires AllFlags(d.flags) && IsConversion(x)
    ensures ParseConversion(Text(d) + [x], Arguments(d) + args)
            == Parse(Options(d.flags, FieldValue(d.width), PrecisionValue(d.precision)), d.kind, [x], args)
  {
    hide NumberAt, PrecisionAt, FlagRun, TypeAt, Options, IsFlag, IsDigit, FieldText, FieldArgs, FieldValue, PrecisionArgs,
      PrecisionValue, Modifier, IsConversion;
    var t := Modifier(d.kind) + [x];
    var tail := PrecisionText(d.precision) + t;
    var f, w := d.flags, FieldText(d.width);
    var rest := PrecisionArgs(d.precision) + args;
    assert Text(d) + [x] == f + (w + tail) && Arguments(d) + args == FieldArgs(d.width) + rest;
    TailStarts();
    ModifierStarts(d.kind, x);
    assert tail != "" && (tail[0] == '.' || tail[0] == t[0]);
    FieldStarts(d.width, tail);
    FlagRunOf(f, w + tail);
    assert (f + (w + tail))[|f|..] == w + tail;
    FieldRead(d.width, tail, rest);
    PrecisionFieldRead(d.precision, t, args);
    ModifierRead(d.kind, x);
  }

  /** From the format to the number and back: writing an int with any %d conversion, whatever its
      flags (but grouping), its width and its precision, given in the format or as arguments, and
      reading the output with atoi gives the int. */
  lemma FormatRoundTrip(d: Directive, v: int, args: seq<int>)
    requires AllFlags(d.flags) && '\'' !in d.flags
    ensures var p := ParseConversion(Text(d) + "d", Arguments(d) + args);
            && p.kind == d.kind && p.rest == "d" && p.args == args
            && Parsed(Rendered(BASE_D, p.c, if v < 0 then 0 - v else v, true, v < 0)) == v
  {
    hide Rendered, Parsed, ParseConversion;
    DirectiveReads(d, 'd', args);
    RoundTrip(Options(d.flags, FieldValue(d.width), PrecisionValue(d.precision)), v);
  }

  /** A negative width argument sets the minus flag beside the zero flag, which the flag
      characters alone cannot do. */
  lemma NegativeWidth(d: Directive)
    requires d.width.Star? && d.width.arg < 0
    ensures var c := Options(d.flags, FieldValue(d.width), PrecisionValue(d.precision));
            && c.minus && c.width == -d.width.arg
            && (c.zero <==> '0' in d.flags && '-' !in d.flags && PrecisionValue(d.precision) < 0)
  {
  }
}
