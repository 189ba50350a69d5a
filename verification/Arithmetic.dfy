/** 64-bit division out of a 64-by-32-bit divide instruction.  Machine words are
    naturals below 2^32 and 2^64, and every operation that can wrap is written
    with its modulus. */
module Arithmetic {
  import opened Basics

  const W32 := 0x1_0000_0000
  const W64 := 0x1_0000_0000_0000_0000
  const I63 := 0x8000_0000_0000_0000
  const I31 := 0x8000_0000

  function Pow2(k: nat): (p: nat)
    ensures p >= 1
  {
    if k == 0 then 1 else 2 * Pow2(k - 1)
  }

  lemma {:induction false} Pow2Add(a: nat, b: nat)
    ensures Pow2(a + b) == Pow2(a) * Pow2(b)
  {
    if a != 0 {
      Pow2Add(a - 1, b);
      Associate(2, Pow2(a - 1), Pow2(b));
    }
  }

  lemma Associate(a: int, b: int, c: int)
    ensures a * b * c == a * (b * c)
  {
  }

  /** X is the quotient of N by D. */
  lemma QuotientIs(n: nat, d: nat, x: nat)
    requires d > 0 && x * d <= n < x * d + d
    ensures n / d == x && n % d == n - x * d
  {
    var e: int, m: int := n / d - x, d;
    assert n == (n / d) * d + n % d;
    assert e * m == n - x * d - n % d;
    assert e > 0 ==> e * m >= m;
    assert e < 0 ==> e * m <= -m;
  }

  lemma QuotientBounds(n: nat, d: nat)
    requires d > 0
    ensures (n / d) * d <= n < (n / d) * d + d
  {
    assert n == (n / d) * d + n % d;
  }

  lemma MulMono(a: nat, b: nat, c: nat)
    requires a <= b
    ensures a * c <= b * c
  {
  }

  /** Dividing twice is dividing by the product. */
  lemma DivTwice(n: nat, a: nat, b: nat)
    requires a > 0 && b > 0
    ensures a * b > 0 && n / a / b == n / (a * b)
  {
    var q := n / a;
    var p := q / b;
    QuotientBounds(n, a);
    QuotientBounds(q, b);
    DivTwiceBounds(n, a, b, q, p);
    QuotientIs(n, a * b, p);
  }

  lemma DivTwiceBounds(n: nat, a: nat, b: nat, q: nat, p: nat)
    requires a > 0 && b > 0 && q * a <= n < q * a + a && p * b <= q < p * b + b
    ensures a * b > 0 && p * (a * b) <= n < p * (a * b) + a * b
  {
    MulMono(p * b, q, a);
    MulMono(q + 1, p * b + b, a);
    Associate(p, b, a);
  }

  /** The documented effect of the divide instruction: it traps when D is zero or
      the quotient does not fit in 32 bits. */
  function Divl(n: nat, d: nat): Option<nat> {
    if d == 0 || n / d >= W32 then None else Some(n / d)
  }

  function Wrap32(x: nat): nat { x % W32 }

  function Wrap64(x: int): nat { x % W64 }

  /** nlz: the shift that brings X's highest bit to bit 31. */
  method Nlz(x0: nat) returns (n: nat)
    requires 0 < x0 < W32
    ensures n <= 31 && Pow2(31) <= x0 * Pow2(n) < Pow2(32)
  {
    hide IsShift, Pow2, Wrap32;
    Pow2Small();
    var x := x0;
    n := 0;
    ShiftNone(x0);
    if x <= 0x0000FFFF {
      Shifted(x0, n, 16, x, 0x10000);
      n := n + 16;
      x := Wrap32(x * 0x10000);
    }
    assert IsShift(x0, n, x) && 0x10000 <= x < W32 && n <= 16;
    if x <= 0x00FFFFFF {
      Shifted(x0, n, 8, x, 0x100);
      n := n + 8;
      x := Wrap32(x * 0x100);
    }
    assert IsShift(x0, n, x) && 0x100_0000 <= x < W32 && n <= 24;
    if x <= 0x0FFFFFFF {
      Shifted(x0, n, 4, x, 0x10);
      n := n + 4;
      x := Wrap32(x * 0x10);
    }
    assert IsShift(x0, n, x) && 0x1000_0000 <= x < W32 && n <= 28;
    if x <= 0x3FFFFFFF {
      Shifted(x0, n, 2, x, 4);
      n := n + 2;
      x := Wrap32(x * 4);
    }
    assert IsShift(x0, n, x) && 0x4000_0000 <= x < W32 && n <= 30;
    if x <= 0x7FFFFFFF {
      Shifted(x0, n, 1, x, 2);
      n := n + 1;
      x := x * 2;
    }
    ShiftEnds(x0, n, x);
  }

  ghost predicate IsShift(x0: nat, n: nat, x: nat) {
    x == x0 * Pow2(n)
  }

  lemma ShiftNone(x0: nat)
    ensures IsShift(x0, 0, x0)
  {
  }

  lemma Shifted(x0: nat, n: nat, k: nat, x: nat, f: nat)
    requires IsShift(x0, n, x) && f == Pow2(k)
    ensures IsShift(x0, n + k, x * f) && (x * f < W32 ==> Wrap32(x * f) == x * f)
  {
    Pow2Add(n, k);
    Associate(x0, Pow2(n), Pow2(k));
  }

  lemma ShiftEnds(x0: nat, n: nat, x: nat)
    requires IsShift(x0, n, x) && I31 <= x < W32
    ensures Pow2(31) <= x0 * Pow2(n) < Pow2(32)
  {
    hide Pow2;
    Pow2Large();
  }

  lemma Pow2Small()
    ensures Pow2(1) == 2 && Pow2(2) == 4 && Pow2(4) == 0x10 && Pow2(8) == 0x100 && Pow2(16) == 0x10000
  {
    assert Pow2(1) == 2 * Pow2(0);
    assert Pow2(2) == 2 * Pow2(1);
    hide Pow2;
    Pow2Add(2, 2);
    Pow2Add(4, 4);
    Pow2Add(8, 8);
  }

  lemma Pow2Large()
    ensures Pow2(31) == I31 && Pow2(32) == W32 && Pow2(62) == 0x4000_0000_0000_0000 && Pow2(64) == W64
  {
    assert Pow2(32) == 2 * Pow2(31);
    hide Pow2;
    Pow2Small();
    Pow2Add(16, 16);
    Pow2Add(32, 32);
    Pow2Add(31, 31);
  }

  // ---- a divisor below 2^32 ----

  /** The low half of the quotient fits, and the two halves make the quotient. */
  lemma SmallDivisor(n: nat, d: nat, n1: nat, n0: nat)
    requires 0 < d && n == W32 * n1 + n0 && n0 < W32
    ensures var y := W32 * (n1 % d) + n0;
            y / d < W32 && n / d == y / d + W32 * (n1 / d)
  {
    var y := W32 * (n1 % d) + n0;
    QuotientBounds(y, d);
    Halves(n, d, n1, n0, n1 / d, n1 % d, y / d);
    QuotientIs(n, d, y / d + W32 * (n1 / d));
  }

  lemma Halves(n: nat, d: nat, n1: nat, n0: nat, a: nat, m: nat, b: nat)
    requires 0 < d && n == W32 * n1 + n0 && n0 < W32 && n1 == a * d + m && m < d
    requires b * d <= W32 * m + n0 < b * d + d
    ensures b < W32 && (b + W32 * a) * d <= n < (b + W32 * a) * d + d
  {
    HalvesFit(b, d, W32 * m + n0, m, n0);
    Distribute(b, W32 * a, d);
    Associate(W32, a, d);
  }

  lemma Distribute(a: int, b: int, c: int)
    ensures (a + b) * c == a * c + b * c
  {
  }

  lemma HalvesFit(b: nat, d: nat, y: nat, m: nat, n0: nat)
    requires 0 < d && m < d && n0 < W32 && y == W32 * m + n0 && b * d <= y
    ensures b < W32
  {
    assert y < W32 * d;
    if b >= W32 {
      MulMono(W32, b, d);
    }
  }

  // ---- a divisor of 2^32 or more ----

  /** The scaled divisor that the estimate really divides by: V is D's top 32 bits
      after normalising, and W what they were scaled by. */
  ghost predicate Scaled(d: nat, v: nat, w: nat) {
    v >= I31 && w >= 1 && v * w <= d < v * w + w
  }

  /** Dividing by the scaled divisor is at most one too high. */
  lemma EstimateBounds(n: nat, d: nat, v: nat, w: nat)
    requires Scaled(d, v, w) && n < W64
    ensures v * w > 0 && d > 0 && n / d <= n / (v * w) <= n / d + 1
  {
    MulMono(1, v, w);
    ErrorSmall(n, d, v, w);
    EstimateOf(n, d, v * w);
  }

  lemma EstimateOf(n: nat, d: nat, c: nat)
    requires 0 < c <= d && n * (d - c) < d * c
    ensures n / d <= n / c <= n / d + 1
  {
    QuotientBounds(n, d);
    QuotientBounds(n, c);
    EstimateLow(n, c, d, n / c, n / d);
    EstimateHigh(n, c, d, n / c, n / d);
  }

  lemma EstimateLow(n: nat, c: nat, d: nat, t: nat, q: nat)
    requires c <= d && q * d <= n < t * c + c
    ensures q <= t
  {
    if t < q {
      MulMono(t + 1, q, c);
      MulMono(c, d, q);
    }
  }

  lemma EstimateHigh(n: nat, c: nat, d: nat, t: nat, q: nat)
    requires 0 < c <= d && t * c <= n < q * d + d && n * (d - c) < d * c
    ensures t <= q + 1
  {
    MulMono(n, q * d + d, c);
    MulMono(t * c, n, d);
    TwoTooHigh(n, c, d, q);
    if t >= q + 2 {
      MulMono(q + 2, t, c);
      MulMono((q + 2) * c, t * c, d);
    }
  }

  lemma TwoTooHigh(n: nat, c: nat, d: nat, q: nat)
    ensures (q + 2) * c * d == (q * d + d) * c + d * c
    ensures n * d == n * (d - c) + n * c
  {
  }

  /** The error of scaling is small: 4(w - 1) <= w^2. */
  lemma ErrorSmall(n: nat, d: nat, v: nat, w: nat)
    requires Scaled(d, v, w) && n < W64
    ensures n * (d - v * w) < d * (v * w)
  {
    var c := v * w;
    var e := d - c;
    assert c >= I31 * w by { MulMono(I31, v, w); }
    if e == 0 {
      assert c > 0 && d * c > 0;
    } else {
      MulMono(n, W64 - 1, e);
      MulMono(e, w - 1, W64);
      SquareBound(w);
      ScaledSquare(c, w);
      MulMono(c, d, c);
    }
  }

  lemma SquareBound(w: nat)
    requires w >= 1
    ensures 4 * (w - 1) <= w * w
  {
    assert (w - 2) * (w - 2) >= 0;
  }

  lemma ScaledSquare(c: nat, w: nat)
    requires c >= I31 * w
    ensures c * c >= 0x4000_0000_0000_0000 * (w * w)
  {
    MulMono(I31 * w, c, c);
    MulMono(I31 * w, c, I31 * w);
  }

  lemma Cancel(a: nat, b: nat, c: nat)
    requires c > 0
    ensures a * c < b * c ==> a < b
    ensures a * c <= b * c ==> a <= b
  {
    if b <= a {
      MulMono(b, a, c);
    }
    if b < a {
      MulMono(b + 1, a, c);
    }
  }

  /** Normalising does not overflow, and the top half V of the result scales D. */
  lemma Normalised(d: nat, d1: nat, d0: nat, p: nat, w: nat)
    requires d == d1 * W32 + d0 && d0 < W32 && p * w == W32 && p > 0 && I31 <= d1 * p < W32
    ensures d * p < W64 && I31 <= d * p / W32 < W32 && Scaled(d, d * p / W32, w)
  {
    var x := d * p;
    var v := x / W32;
    QuotientBounds(x, W32);
    assert x == d1 * p * W32 + d0 * p by {
      Distribute(d1 * W32, d0, p);
      assert d1 * W32 * p == d1 * p * W32;
    }
    NormalTop(d1, d0, p, w);
    TopHalf(x, d1 * p, d0 * p);
    assert v * w <= d < v * w + w by {
      ScaleBack(d, p, w, v);
    }
  }

  /** The carry out of the low half stays within the top half. */
  lemma NormalTop(d1: nat, d0: nat, p: nat, w: nat)
    requires d0 < W32 && p * w == W32 && p > 0 && d1 * p < W32
    ensures d1 * p + p <= W32 && d0 * p < W32 * p
  {
    Cancel(d1, w, p);
    MulMono(d1 + 1, w, p);
    if d0 * p >= W32 * p {
      Cancel(W32, d0, p);
    }
  }

  lemma TopHalf(x: nat, a: nat, b: nat)
    requires x == a * W32 + b && I31 <= a && exists p: nat :: b < W32 * p && a + p <= W32
    ensures x < W64 && I31 <= x / W32 < W32
  {
    var p: nat :| b < W32 * p && a + p <= W32;
    assert x < (a + p) * W32;
  }

  lemma ScaleBack(d: nat, p: nat, w: nat, v: nat)
    requires p > 0 && p * w == W32 && v * W32 <= d * p < v * W32 + W32
    ensures v * w <= d < v * w + w
  {
    assert v * w * p == v * W32 by { Associate(v, w, p); }
    assert (v * w + w) * p == v * W32 + W32 by { Distribute(v * w, w, p); }
    Cancel(v * w, d, p);
    Cancel(d, v * w + w, p);
  }

  /** The divide instruction does not trap on the halved dividend. */
  lemma NoTrap(n: nat, v: nat)
    requires n < W64 && v >= I31
    ensures n / 2 / v < W32
  {
    var q := n / 2 / v;
    QuotientBounds(n / 2, v);
    if q >= W32 {
      MulMono(W32, q, v);
    }
  }

  /** Shifting the estimate right by 31 - S divides N by V times W. */
  lemma Estimate(n: nat, v: nat, h: nat)
    requires v > 0 && h > 0
    ensures v * (2 * h) > 0 && n / 2 / v / h == n / (v * (2 * h))
  {
    DivTwice(n, 2, v);
    DivTwice(n, 2 * v, h);
    assert 2 * v * h == v * (2 * h);
  }

  /** The correction picks the right one of the two candidates, without wrapping. */
  lemma Correct(n: nat, d: nat, q: nat)
    requires 0 < d <= n < W64 && n / d <= q <= n / d + 1 && q >= 1
    ensures var m := Wrap64(n - Wrap64((q - 1) * d)); n / d == if m < d then q - 1 else q
  {
    var t := n / d;
    QuotientBounds(n, d);
    MulMono(q - 1, t, d);
    assert (q - 1) * d <= n;
    CorrectCase(n, d, q, t);
  }

  lemma CorrectCase(n: nat, d: nat, q: nat, t: nat)
    requires 0 < d && t * d <= n < t * d + d && t <= q <= t + 1 && q >= 1
    ensures t == if n - (q - 1) * d < d then q - 1 else q
  {
    if q == t {
      assert (q - 1) * d == t * d - d;
    }
  }

  /** udiv64: the quotient, for every N and every nonzero D; the divide instruction never traps. */
  method Udiv64(n: nat, d: nat) returns (r: Option<nat>)
    requires n < W64 && d < W64
    ensures r == if d == 0 then None else Some(n / d)
  {
    if d / W32 == 0 {
      if d == 0 {
        return None;
      }
      r := DivideSmall(n, d);
    } else if n < d {
      assert n / d == 0 by { QuotientIs(n, d, 0); }
      r := Some(0);
    } else {
      r := DivideLarge(n, d);
    }
  }

  method DivideSmall(n: nat, d: nat) returns (r: Option<nat>)
    requires n < W64 && 0 < d < W32
    ensures r == Some(n / d)
  {
    hide Wrap64;
    var n1, n0 := n / W32, n % W32;
    SmallDivisor(n, d, n1, n0);
    QuotientSmall(n, d);
    WrapSmall(n / d);
    var y := W32 * (n1 % d) + n0;
    var q := Divl(y, d);
    if q.None? {
      return None;
    }
    r := Some(Wrap64(q.value + W32 * (n1 / d)));
  }

  lemma QuotientSmall(n: nat, d: nat)
    requires d > 0
    ensures n / d <= n
  {
    QuotientBounds(n, d);
    MulMono(1, d, n / d);
  }

  method DivideLarge(n: nat, d: nat) returns (r: Option<nat>)
    requires W32 <= d <= n < W64
    ensures r == Some(n / d)
  {
    hide Pow2, Scaled, Wrap64;
    var d1 := d / W32;
    var s := Nlz(d1);
    ghost var h := Pow2(31 - s);
    PowersSplit(s);
    Normalised(d, d1, d % W32, Pow2(s), 2 * h);
    WrapSmall(d * Pow2(s));
    var v := Wrap64(d * Pow2(s)) / W32;
    NoTrap(n, v);
    var e := Divl(n / 2, v);
    if e.None? {
      return None;
    }
    var q := e.value / Pow2(31 - s);
    Estimate(n, v, h);
    EstimateBounds(n, d, v, 2 * h);
    QuotientAtLeastOne(n, d);
    Correct(n, d, q);
    r := Some(if Wrap64(n - Wrap64((q - 1) * d)) < d then q - 1 else q);
  }

  lemma WrapSmall(x: nat)
    requires x < W64
    ensures Wrap64(x) == x
  {
  }

  lemma QuotientAtLeastOne(n: nat, d: nat)
    requires 0 < d <= n
    ensures n / d >= 1
  {
    QuotientBounds(n, d);
    AtLeastOne(n, d, n / d);
  }

  lemma AtLeastOne(n: nat, d: nat, q: nat)
    requires d <= n < q * d + d
    ensures q >= 1
  {
  }

  lemma PowersSplit(s: nat)
    requires s <= 31
    ensures Pow2(s) * (2 * Pow2(31 - s)) == W32 && Pow2(31) == I31 && Pow2(32) == W32
  {
    hide Pow2;
    Pow2Large();
    Pow2Add(s, 31 - s);
    TwiceProduct(Pow2(s), Pow2(31 - s));
  }

  lemma TwiceProduct(a: nat, b: nat)
    ensures a * (2 * b) == 2 * (a * b)
  {
  }

  /** umod64: the remainder, cut to 32 bits. */
  method Umod64(n: nat, d: nat) returns (r: Option<nat>)
    requires n < W64 && d < W64
    ensures r == if d == 0 then None else Some(n % d % W32)
  {
    var q := Udiv64(n, d);
    if q.None? {
      return None;
    }
    Remainder(n, d);
    r := Some(Wrap32(Wrap64(n - Wrap64(d * q.value))));
  }

  lemma Remainder(n: nat, d: nat)
    requires n < W64 && 0 < d
    ensures Wrap64(n - Wrap64(d * (n / d))) == n % d
  {
    QuotientBounds(n, d);
    RemainderOf(n, d, n / d);
    assert n % d == n - (n / d) * d by { QuotientIs(n, d, n / d); }
  }

  lemma RemainderOf(n: nat, d: nat, q: nat)
    requires n < W64 && q * d <= n
    ensures Wrap64(n - Wrap64(d * q)) == n - q * d
  {
    assert d * q == q * d;
    WrapSmall(q * d);
    WrapSmall(n - q * d);
  }

  /** umod64 gives the true remainder of every dividend exactly when D is at most 2^32. */
  lemma UmodExact(d: nat)
    requires 0 < d < W64
    ensures (forall n: nat :: n < W64 ==> n % d % W32 == n % d) <==> d <= W32
  {
    if d > W32 {
      assert W32 % d == W32 by { QuotientIs(W32, d, 0); }
      assert W32 % d % W32 == 0;
    }
  }

  // ---- signed division ----

  function Abs(x: int): nat { if x >= 0 then x else -x }

  /** Q is N divided by D, rounded towards zero. */
  ghost predicate Truncates(n: int, d: int, q: int) {
    Abs(q * d) <= Abs(n) && Abs(n - q * d) < Abs(d) && (n - q * d == 0 || (n - q * d > 0 <==> n > 0))
  }

  lemma TruncatesUnique(n: int, d: int, p: int, q: int)
    requires Truncates(n, d, p) && Truncates(n, d, q)
    ensures p == q
  {
    var e := p - q;
    assert e * d == (n - q * d) - (n - p * d);
    assert Abs(e * d) < Abs(d);
    if e != 0 {
      AbsProduct(e, d);
      MulMono(1, Abs(e), Abs(d));
    }
  }

  lemma AbsProduct(a: int, b: int)
    ensures Abs(a * b) == Abs(a) * Abs(b)
  {
  }

  /** The bit pattern X read as a signed 64-bit number. */
  function Signed(x: nat): int {
    if x >= I63 then x - W64 else x
  }

  /** sdiv64: truncating division, except for the one quotient that does not fit. */
  method Sdiv64(n: int, d: int) returns (r: Option<int>)
    requires -I63 <= n < I63 && -I63 <= d < I63
    ensures r.None? <==> d == 0
    ensures r.Some? ==> -I63 <= r.value < I63
    ensures r.Some? ==> (Truncates(n, d, r.value) <==> !(n == -I63 && d == -1))
    ensures n == -I63 && d == -1 ==> r == Some(-I63)
  {
    var nAbs := if n >= 0 then n else Wrap64(-n);
    var dAbs := if d >= 0 then d else Wrap64(-d);
    WrapAbs(n);
    WrapAbs(d);
    hide Wrap64;
    var q := Udiv64(nAbs, dAbs);
    if q.None? {
      return None;
    }
    QuotientBounds(Abs(n), Abs(d));
    SignedQuotient(n, d, q.value);
    r := Some(SignedOf(n, d, q.value));
  }

  lemma WrapAbs(n: int)
    requires -I63 <= n < I63
    ensures n < 0 ==> Wrap64(-n) == Abs(n)
    ensures Abs(n) <= I63
  {
  }

  /** Negating modulo 2^64 negates the quotient, which is never above 2^63. */
  lemma NegateSigned(q: nat)
    requires q <= I63
    ensures Signed(Wrap64(-Signed(q))) == 0 - q
  {
  }

  /** The quotient with its sign put back. */
  function SignedOf(n: int, d: int, q: nat): int {
    if (n < 0) == (d < 0) then Signed(q) else Signed(Wrap64(-Signed(q)))
  }

  ghost predicate AbsQuotient(n: int, d: int, q: nat) {
    d != 0 && q * Abs(d) <= Abs(n) < q * Abs(d) + Abs(d)
  }

  lemma SignedOfIs(n: int, d: int, q: nat)
    requires q <= I63
    ensures SignedOf(n, d, q) == if (n < 0) != (d < 0) then 0 - q else if q == I63 then -I63 else q
  {
    NegateSigned(q);
  }

  lemma AbsQuotientSmall(n: int, d: int, q: nat)
    requires -I63 <= n < I63 && AbsQuotient(n, d, q)
    ensures q <= I63
    ensures (n < 0) == (d < 0) && q == I63 ==> n == -I63 && d == -1
    ensures n == -I63 && d == -1 ==> q == I63
  {
    MulMono(1, Abs(d), q);
    MinOverMinusOne(n, d, q);
  }

  lemma SignedQuotient(n: int, d: int, q: nat)
    requires -I63 <= n < I63 && -I63 <= d < I63 && AbsQuotient(n, d, q)
    ensures -I63 <= SignedOf(n, d, q) < I63
    ensures Truncates(n, d, SignedOf(n, d, q)) <==> !(n == -I63 && d == -1)
    ensures n == -I63 && d == -1 ==> SignedOf(n, d, q) == -I63
  {
    TruncatesAbs(n, d, q);
    AbsQuotientSmall(n, d, q);
    SignedOfIs(n, d, q);
    hide Wrap64, Truncates, AbsQuotient, SignedOf;
    MinNotTruncated();
  }

  lemma MinNotTruncated()
    ensures !Truncates(-I63, -1, -I63)
  {
  }

  lemma TruncatesAbs(n: int, d: int, q: nat)
    requires AbsQuotient(n, d, q)
    ensures Truncates(n, d, if (n < 0) == (d < 0) then q else 0 - q)
  {
    SignedProduct(q, d);
    var t := if (n < 0) == (d < 0) then q else 0 - q;
    assert t * d == if n < 0 then 0 - q * Abs(d) else q * Abs(d);
  }

  lemma SignedProduct(q: nat, d: int)
    ensures q * d == if d < 0 then 0 - q * Abs(d) else q * Abs(d)
    ensures (0 - q) * d == 0 - q * d
  {
  }

  lemma MinOverMinusOne(n: int, d: int, q: nat)
    requires -I63 <= n < I63 && d != 0 && q <= I63 && q * Abs(d) <= Abs(n)
    ensures (n < 0) == (d < 0) && q == I63 ==> n == -I63 && d == -1
  {
    if Abs(d) >= 2 {
      MulMono(2, Abs(d), q);
      assert 2 * q <= I63;
    }
  }

  /** X cut to a signed 32-bit number. */
  function Cut32(x: int): int {
    if x % W32 >= I31 then x % W32 - W32 else x % W32
  }

  /** smod64: the remainder of truncating division, cut to 32 bits. */
  method Smod64(n: int, d: int) returns (r: Option<int>)
    requires -I63 <= n < I63 && -I63 <= d < I63
    ensures r.None? <==> d == 0
    ensures forall q :: r.Some? && Truncates(n, d, q) ==> r.value == Cut32(n - q * d)
  {
    var s := Sdiv64(n, d);
    if s.None? {
      return None;
    }
    r := Some(Cut32(Wrap64(n - d * s.value)));
    forall q | Truncates(n, d, q) ensures r.value == Cut32(n - q * d) {
      CutRemainder(n, d, s.value, q);
    }
  }

  lemma CutRemainder(n: int, d: int, s: int, q: int)
    requires -I63 <= n < I63 && Truncates(n, d, q)
    requires Truncates(n, d, s) <==> !(n == -I63 && d == -1)
    requires n == -I63 && d == -1 ==> s == -I63
    ensures Cut32(Wrap64(n - d * s)) == Cut32(n - q * d)
  {
    CutWrapped(n - d * s);
    if Truncates(n, d, s) {
      TruncatesUnique(n, d, s, q);
    } else {
      MinTruncates(q);
    }
  }

  lemma CutWrapped(x: int)
    ensures Cut32(Wrap64(x)) == Cut32(x)
  {
    assert Wrap64(x) % W32 == x % W32;
  }

  lemma MinTruncates(q: int)
    requires Truncates(-I63, -1, q)
    ensures -I63 - q * -1 == 0
  {
  }

  /** smod64 gives the true remainder of every dividend exactly when D is at most 2^31 in size. */
  lemma SmodExact(d: int)
    requires -I63 <= d < I63 && d != 0
    ensures (forall n, q :: -I63 <= n < I63 && Truncates(n, d, q) ==> Cut32(n - q * d) == n - q * d) <==> Abs(d) <= I31
  {
    if Abs(d) > I31 {
      assert Truncates(I31, d, 0) && Cut32(I31 - 0 * d) == -I31;
    }
  }
}
