/** The initial stack of a user program: setup_stack splits the command line
    with strtok_r and lays out the arguments below PHYS_BASE. */
module ArgStack {
  import opened Basics
  import opened Blocks
  import PageTables

  const SPACE: Byte := 32
  const NUL: Byte := 0

  // ---- words of the command line ----

  function SkipSpaces(s: seq<Byte>): (r: seq<Byte>)
    ensures |r| <= |s| && (r != [] ==> r[0] != SPACE)
  {
    if s != [] && s[0] == SPACE then SkipSpaces(s[1..]) else s
  }

  /** The bytes before the first space. */
  function FirstRun(s: seq<Byte>): (r: seq<Byte>)
    ensures r <= s && SPACE !in r && (s != [] && s[0] != SPACE ==> r != [])
    ensures |r| < |s| ==> s[|r|] == SPACE
  {
    if s == [] || s[0] == SPACE then [] else [s[0]] + FirstRun(s[1..])
  }

  /** The words of a command line. */
  function Tokens(s: seq<Byte>): seq<seq<Byte>>
    decreases |s|
  {
    var t := SkipSpaces(s);
    if t == [] then [] else [FirstRun(t)] + Tokens(t[|FirstRun(t)|..])
  }

  /** S[I..J] is a maximal space-free run of S: nonempty, without spaces, and with a space or
      the end of the line on both sides. */
  ghost predicate MaximalRun(s: seq<Byte>, i: nat, j: nat) {
    && i < j <= |s| && SPACE !in s[i..j]
    && (i == 0 || s[i - 1] == SPACE) && (j == |s| || s[j] == SPACE)
  }

  /** A word's place in the line. */
  datatype Span = Span(start: nat, end: nat)

  /** Where the words of S[FROM..] are. */
  ghost function Spans(s: seq<Byte>, from: nat): (r: seq<Span>)
    requires from <= |s|
    decreases |s| - from
  {
    var t := SkipSpaces(s[from..]);
    if t == [] then [] else
      var i := |s| - |t|;
      var j := i + |FirstRun(t)|;
      [Span(i, j)] + Spans(s, j)
  }

  /** Position K lies in one of the spans. */
  ghost predicate Covered(r: seq<Span>, k: nat) {
    exists m :: 0 <= m < |r| && r[m].start <= k < r[m].end
  }

  /** The spans are in order, from FROM on, and are maximal runs. */
  ghost predicate Ordered(s: seq<Byte>, from: nat, r: seq<Span>) {
    && (forall m :: 0 <= m < |r| ==> from <= r[m].start && MaximalRun(s, r[m].start, r[m].end))
    && (forall m, n :: 0 <= m < n < |r| ==> r[m].end < r[n].start)
  }

  /** TS are the words at the spans R, which hold every byte from FROM on that is not a space. */
  ghost predicate RunsOf(s: seq<Byte>, from: nat, r: seq<Span>, ts: seq<seq<Byte>>) {
    && |r| == |ts| && Ordered(s, from, r)
    && (forall m :: 0 <= m < |r| ==> ts[m] == s[r[m].start..r[m].end])
    && (forall k :: from <= k < |s| && s[k] != SPACE ==> Covered(r, k))
  }

  lemma {:induction false} SkippedAreSpaces(s: seq<Byte>, k: nat)
    requires k < |s| - |SkipSpaces(s)|
    ensures s[k] == SPACE
  {
    if k > 0 {
      SkippedAreSpaces(s[1..], k - 1);
    }
  }

  /** A place where a word may start: the line breaks there, or a space stands on one side. */
  ghost predicate Break(s: seq<Byte>, from: nat) {
    from <= |s| && (from == 0 || from == |s| || s[from] == SPACE || s[from - 1] == SPACE)
  }

  lemma SkippedRange(s: seq<Byte>, from: nat)
    requires from <= |s|
    ensures var i := |s| - |SkipSpaces(s[from..])|;
            from <= i && s[i..] == SkipSpaces(s[from..]) && forall k :: from <= k < i ==> s[k] == SPACE
  {
    var u := s[from..];
    SkipKeeps(u);
    var i := |s| - |SkipSpaces(u)|;
    forall k | from <= k < i ensures s[k] == SPACE {
      SkippedAreSpaces(u, k - from);
    }
  }

  /** The first word of S[FROM..] is a maximal run. */
  lemma FirstSpan(s: seq<Byte>, from: nat, i: nat, j: nat)
    requires Break(s, from) && SkipSpaces(s[from..]) != []
    requires i == |s| - |SkipSpaces(s[from..])| && j == i + |FirstRun(SkipSpaces(s[from..]))|
    ensures from <= i <= j <= |s| && s[i..] == SkipSpaces(s[from..])
    ensures s[i..j] == FirstRun(s[i..]) && MaximalRun(s, i, j) && Break(s, j)
  {
    hide SkipSpaces, FirstRun;
    SkippedRange(s, from);
    FirstNotSpace(s[from..]);
    var t := s[i..];
    RunBounds(t);
    RunInLine(s, i, j, FirstRun(t));
    assert t[0] == s[i];
  }

  lemma RunInLine(s: seq<Byte>, i: nat, j: nat, r: seq<Byte>)
    requires i <= |s| && |r| <= |s| - i && j == i + |r| && s[i..][..|r|] == r && (|r| < |s| - i ==> s[i..][|r|] == SPACE)
    ensures s[i..j] == r && (j < |s| ==> s[j] == SPACE)
  {
  }

  lemma RunBounds(t: seq<Byte>)
    ensures var r := FirstRun(t);
            |r| <= |t| && t[..|r|] == r && SPACE !in r && (|r| < |t| ==> t[|r|] == SPACE)
  {
  }

  lemma RunsCons(s: seq<Byte>, from: nat, i: nat, j: nat, r: seq<Span>, ts: seq<seq<Byte>>)
    requires from <= i && MaximalRun(s, i, j) && RunsOf(s, j, r, ts) && forall k :: from <= k < i ==> s[k] == SPACE
    ensures RunsOf(s, from, [Span(i, j)] + r, [s[i..j]] + ts)
  {
    SpansJoin(s, from, i, j, r);
    hide Ordered, MaximalRun;
    var r', ts' := [Span(i, j)] + r, [s[i..j]] + ts;
    forall k | from <= k < |s| && s[k] != SPACE ensures Covered(r', k) {
      CoveredJoin(i, j, r, k);
    }
  }

  lemma RunsNone(s: seq<Byte>, from: nat)
    requires from <= |s| && SkipSpaces(s[from..]) == []
    ensures Spans(s, from) == [] && Tokens(s[from..]) == [] && RunsOf(s, from, [], [])
  {
    SkippedRange(s, from);
  }

  lemma RunsSome(s: seq<Byte>, from: nat, i: nat, j: nat)
    requires from <= i <= j <= |s| && s[i..] == SkipSpaces(s[from..]) && s[i..] != []
    requires j == i + |FirstRun(s[i..])| && s[i..j] == FirstRun(s[i..])
    ensures Spans(s, from) == [Span(i, j)] + Spans(s, j) && Tokens(s[from..]) == [s[i..j]] + Tokens(s[j..])
  {
    hide SkipSpaces, FirstRun, Tokens;
    assert s[i..][j - i..] == s[j..] && s[i..][..j - i] == s[i..j];
    TokensSplit(s[from..], s[i..], j - i);
  }

  /** The words of a command line, from a break on, are its maximal space-free runs in order. */
  lemma {:induction false} TokensAreRuns(s: seq<Byte>, from: nat)
    requires Break(s, from)
    ensures RunsOf(s, from, Spans(s, from), Tokens(s[from..]))
    decreases |s| - from
  {
    hide RunsOf, MaximalRun, SkipSpaces, FirstRun, Break, Spans, Tokens;
    BreakIn(s, from);
    var t := SkipSpaces(s[from..]);
    if t == [] {
      RunsNone(s, from);
    } else {
      SkippedRange(s, from);
      var i := |s| - |t|;
      var j := i + |FirstRun(t)|;
      FirstSpan(s, from, i, j);
      RunsSome(s, from, i, j);
      RunNonempty(s, i, j);
      TokensAreRuns(s, j);
      RunsCons(s, from, i, j, Spans(s, j), Tokens(s[j..]));
    }
  }

  lemma BreakIn(s: seq<Byte>, from: nat)
    requires Break(s, from)
    ensures from <= |s|
  {
  }

  lemma RunNonempty(s: seq<Byte>, i: nat, j: nat)
    requires MaximalRun(s, i, j)
    ensures i < j <= |s|
  {
  }

  /** Two maximal runs that share a position are the same. */
  lemma SameRun(s: seq<Byte>, a: Span, b: Span, k: nat)
    requires MaximalRun(s, a.start, a.end) && MaximalRun(s, b.start, b.end)
    requires a.start <= k < a.end && b.start <= k < b.end
    ensures a == b
  {
    NoSpaceIn(s, a);
    NoSpaceIn(s, b);
  }

  lemma NoSpaceIn(s: seq<Byte>, a: Span)
    requires MaximalRun(s, a.start, a.end)
    ensures forall k :: a.start <= k < a.end ==> s[k] != SPACE
  {
    forall k | a.start <= k < a.end ensures s[k] != SPACE {
      assert s[a.start..a.end][k - a.start] == s[k];
    }
  }

  /** A slice of the line is a maximal space-free run exactly when it is one of the words. */
  lemma WordsAreMaximalRuns(s: seq<Byte>, i: nat, j: nat)
    ensures MaximalRun(s, i, j) <==> Span(i, j) in Spans(s, 0)
    ensures RunsOf(s, 0, Spans(s, 0), Tokens(s))
  {
    TokensAreRuns(s, 0);
    assert s[0..] == s;
    var r := Spans(s, 0);
    if MaximalRun(s, i, j) {
      NoSpaceIn(s, Span(i, j));
      assert Covered(r, i);
      var m :| 0 <= m < |r| && r[m].start <= i < r[m].end;
      SameRun(s, Span(i, j), r[m], i);
    }
  }

  lemma SpansJoin(s: seq<Byte>, from: nat, i: nat, j: nat, r: seq<Span>)
    requires from <= i && MaximalRun(s, i, j) && Ordered(s, j, r)
    ensures Ordered(s, from, [Span(i, j)] + r)
  {
    var q := [Span(i, j)] + r;
    forall m | 0 <= m < |r| ensures j < r[m].start {
      NoSpaceIn(s, r[m]);
    }
    hide MaximalRun;
    forall m | 0 <= m < |q| ensures from <= q[m].start && MaximalRun(s, q[m].start, q[m].end) {
      assert m > 0 ==> q[m] == r[m - 1];
    }
    forall m, n | 0 <= m < n < |q| ensures q[m].end < q[n].start {
      assert q[n] == r[n - 1];
      assert m > 0 ==> q[m] == r[m - 1];
    }
  }

  lemma CoveredJoin(i: nat, j: nat, r: seq<Span>, k: nat)
    requires i <= k && (k >= j ==> Covered(r, k))
    ensures Covered([Span(i, j)] + r, k)
  {
    var q := [Span(i, j)] + r;
    if k < j {
      assert q[0].start <= k < q[0].end;
    } else {
      var m :| 0 <= m < |r| && r[m].start <= k < r[m].end;
      assert q[m + 1] == r[m];
    }
  }

  lemma {:induction false} TokensNoNul(s: seq<Byte>)
    requires NUL !in s
    ensures forall i :: 0 <= i < |Tokens(s)| ==> NUL !in Tokens(s)[i]
    decreases |s|
  {
    var t := SkipSpaces(s);
    SkipKeeps(s);
    if t != [] {
      TokensNoNul(t[|FirstRun(t)|..]);
    }
  }

  lemma {:induction false} SkipKeeps(s: seq<Byte>)
    ensures SkipSpaces(s) == s[|s| - |SkipSpaces(s)|..]
  {
    if s != [] && s[0] == SPACE {
      SkipKeeps(s[1..]);
    }
  }

  // ---- the layout ----

  const PHYS_BASE := PageTables.PHYS_BASE
  /** Where the stack starts. */
  const TOP := PHYS_BASE - 12
  /** The bytes of the stack's page below TOP. */
  const ROOM := 4084

  function LittleEndian(w: Word): seq<Byte> {
    [WordByte(w, 0), WordByte(w, 1), WordByte(w, 2), WordByte(w, 3)]
  }

  /** The words as NUL-terminated strings, the first one highest. */
  ghost function Strings(ts: seq<seq<Byte>>): seq<Byte> {
    if ts == [] then [] else ts[|ts| - 1] + [NUL] + Strings(ts[..|ts| - 1])
  }

  /** The address of string I. */
  ghost function ArgAddress(ts: seq<seq<Byte>>, i: nat): int
    requires i < |ts|
  {
    TOP - |Strings(ts[..i + 1])|
  }

  ghost function ZeroBytes(n: nat): seq<Byte> { seq(n, i => NUL) }

  /** The strings, with zeros below them down to a multiple of four. */
  ghost function Aligned(s: seq<Byte>): seq<Byte> {
    ZeroBytes((TOP - |s|) % 4) + s
  }

  /** The pointers to the strings from I on, each four bytes. */
  ghost function Pointers(ts: seq<seq<Byte>>, i: nat): seq<Byte>
    requires i <= |ts| && |Strings(ts)| <= TOP
    decreases |ts| - i
  {
    if i == |ts| then [] else
      StringsShorter(ts, i + 1);
      LittleEndian(ArgAddress(ts, i)) + Pointers(ts, i + 1)
  }

  lemma {:induction false} StringsShorter(ts: seq<seq<Byte>>, i: nat)
    requires i <= |ts|
    ensures |Strings(ts[..i])| <= |Strings(ts)|
    ensures Strings(ts)[|Strings(ts)| - |Strings(ts[..i])|..] == Strings(ts[..i])
    decreases |ts|
  {
    if i == |ts| {
      assert ts[..i] == ts;
    } else {
      var n := |ts| - 1;
      StringsShorter(ts[..n], i);
      assert ts[..n][..i] == ts[..i];
      assert Strings(ts) == ts[n] + [NUL] + Strings(ts[..n]);
    }
  }

  /** The layout of the words TS fits in the stack's page. */
  ghost predicate Fits(ts: seq<seq<Byte>>) {
    |Aligned(Strings(ts))| + 4 * |ts| + 16 <= ROOM
  }

  lemma {:induction false} PointersLength(ts: seq<seq<Byte>>, i: nat)
    requires i <= |ts| && |Strings(ts)| <= TOP
    ensures |Pointers(ts, i)| == 4 * (|ts| - i)
    decreases |ts| - i
  {
    if i < |ts| {
      PointersLength(ts, i + 1);
    }
  }

  /** Everything from argv[0] up. */
  ghost function Vector(ts: seq<seq<Byte>>): (v: seq<Byte>)
    requires Fits(ts)
    ensures |v| == |Aligned(Strings(ts))| + 4 * |ts| + 4
  {
    PointersLength(ts, 0);
    Pointers(ts, 0) + LittleEndian(0) + Aligned(Strings(ts))
  }

  /** The whole stack, from the final stack pointer up to TOP. */
  ghost function Layout(ts: seq<seq<Byte>>): (st: seq<Byte>)
    requires Fits(ts)
    ensures |st| == |Aligned(Strings(ts))| + 4 * |ts| + 16 <= ROOM
  {
    LittleEndian(0) + LittleEndian(|ts|) + LittleEndian(TOP - |Vector(ts)|) + Vector(ts)
  }

  // ---- reading the stack back ----

  /** The word at offset K of the memory S. */
  function WordAt(s: seq<Byte>, k: nat): Word
    requires k + 4 <= |s|
  {
    JoinBytes(s[k], s[k + 1], s[k + 2], s[k + 3])
  }

  /** The string at the start of S, up to its terminator. */
  function CString(s: seq<Byte>): seq<Byte> {
    if s == [] || s[0] == NUL then [] else [s[0]] + CString(s[1..])
  }

  lemma WordBack(a: seq<Byte>, w: Word, b: seq<Byte>)
    ensures WordAt(a + LittleEndian(w) + b, |a|) == w
  {
    var s := a + LittleEndian(w) + b;
    assert s[|a|] == WordByte(w, 0) && s[|a| + 1] == WordByte(w, 1) && s[|a| + 2] == WordByte(w, 2) && s[|a| + 3] == WordByte(w, 3);
    JoinWordBytes(w);
  }

  lemma {:induction false} CStringBack(t: seq<Byte>, rest: seq<Byte>)
    requires NUL !in t
    ensures CString(t + [NUL] + rest) == t
  {
    var s := t + [NUL] + rest;
    if t != [] {
      CStringBack(t[1..], rest);
      assert s[1..] == t[1..] + [NUL] + rest;
    }
  }

  /** Pointer I of the vector. */
  lemma {:induction false} PointerAt(ts: seq<seq<Byte>>, j: nat, i: nat)
    requires j <= i < |ts| && |Strings(ts)| <= TOP
    ensures |Pointers(ts, j)| == 4 * (|ts| - j) && WordAt(Pointers(ts, j), 4 * (i - j)) == ArgAddress(ts, i)
    decreases i - j
  {
    PointersLength(ts, j);
    PointersLength(ts, j + 1);
    var p, rest := Pointers(ts, j), Pointers(ts, j + 1);
    StringsShorter(ts, j + 1);
    var w := LittleEndian(ArgAddress(ts, j));
    assert p == w + rest;
    if i == j {
      WordBack([], ArgAddress(ts, j), rest);
      assert [] + w + rest == p;
    } else {
      PointerAt(ts, j + 1, i);
      WordShift(w, rest, 4 * (i - j - 1));
    }
  }

  lemma WordShift(a: seq<Byte>, s: seq<Byte>, k: nat)
    requires k + 4 <= |s|
    ensures WordAt(a + s, |a| + k) == WordAt(s, k)
  {
    var t := a + s;
    assert t[|a| + k] == s[k] && t[|a| + k + 1] == s[k + 1] && t[|a| + k + 2] == s[k + 2] && t[|a| + k + 3] == s[k + 3];
  }

  lemma WordPrefix(s: seq<Byte>, b: seq<Byte>, k: nat)
    requires k + 4 <= |s|
    ensures WordAt(s + b, k) == WordAt(s, k)
  {
  }

  /** String I can be read at its address. */
  lemma StringAt(ts: seq<seq<Byte>>, i: nat, front: seq<Byte>)
    requires i < |ts| && NUL !in ts[i]
    ensures var st := front + Strings(ts);
            var n := |Strings(ts[..i + 1])|;
            n <= |st| && n > 0 && CString(st[|st| - n..]) == ts[i]
  {
    var st := front + Strings(ts);
    StringsShorter(ts, i + 1);
    var us := ts[..i + 1];
    assert us[..i] == ts[..i] && us[i] == ts[i];
    var n := |Strings(us)|;
    assert st[|st| - n..] == Strings(ts)[|Strings(ts)| - n..];
    CStringBack(ts[i], Strings(us[..i]));
  }

  lemma AlignedLength(s: seq<Byte>)
    ensures (TOP - |Aligned(s)|) % 4 == 0 && |s| <= |Aligned(s)| < |s| + 4
    ensures Aligned(s)[|Aligned(s)| - |s|..] == s
  {
  }

  /** From the final stack pointer: a zero return address, argc, a pointer to argv just
      above it, and a null after argc pointers; all aligned. */
  lemma Walk(ts: seq<seq<Byte>>)
    requires Fits(ts)
    ensures var st := Layout(ts);
            var esp := TOP - |st|;
            && esp % 4 == 0 && WordAt(st, 0) == 0 && WordAt(st, 4) == |ts|
            && WordAt(st, 8) == esp + 12 && WordAt(st, 12 + 4 * |ts|) == 0
  {
    AlignedLength(Strings(ts));
    hide Aligned, Strings, LittleEndian, WordAt;
    var v := Vector(ts);
    var zero, argc, self := LittleEndian(0), LittleEndian(|ts|), LittleEndian(TOP - |v|);
    LittleLength(0);
    LittleLength(|ts|);
    LittleLength(TOP - |v|);
    WordBack([], 0, argc + self + v);
    assert [] + zero + (argc + self + v) == Layout(ts);
    WordBack(zero, |ts|, self + v);
    assert zero + argc + (self + v) == Layout(ts);
    WordBack(zero + argc, TOP - |v|, v);
    PointersLength(ts, 0);
    WordBack(zero + argc + self + Pointers(ts, 0), 0, Aligned(Strings(ts)));
    assert zero + argc + self + Pointers(ts, 0) + zero + Aligned(Strings(ts)) == Layout(ts);
  }

  lemma LittleLength(w: Word)
    ensures |LittleEndian(w)| == 4
  {
  }

  lemma VectorPointer(ts: seq<seq<Byte>>, i: nat)
    requires Fits(ts) && i < |ts|
    ensures WordAt(Vector(ts), 4 * i) == ArgAddress(ts, i)
  {
    AlignedLength(Strings(ts));
    PointerAt(ts, 0, i);
    hide WordAt, LittleEndian, Aligned, Pointers, Strings;
    var p, rest := Pointers(ts, 0), LittleEndian(0) + Aligned(Strings(ts));
    WordPrefix(p, rest, 4 * i);
    assert p + rest == Vector(ts);
  }

  lemma ArgPointer(ts: seq<seq<Byte>>, i: nat)
    requires Fits(ts) && i < |ts|
    ensures WordAt(Layout(ts), 12 + 4 * i) == ArgAddress(ts, i)
  {
    VectorPointer(ts, i);
    hide WordAt, LittleEndian, Aligned, Vector;
    var v := Vector(ts);
    var head := LittleEndian(0) + LittleEndian(|ts|) + LittleEndian(TOP - |v|);
    LittleLength(0);
    LittleLength(|ts|);
    LittleLength(TOP - |v|);
    WordShift(head, v, 4 * i);
  }

  /** The stack ends with the strings. */
  lemma LayoutEnds(ts: seq<seq<Byte>>) returns (front: seq<Byte>)
    requires Fits(ts)
    ensures Layout(ts) == front + Strings(ts)
  {
    AlignedLength(Strings(ts));
    hide LittleEndian, Aligned, Pointers, Strings;
    var v, s := Vector(ts), Aligned(Strings(ts));
    front := LittleEndian(0) + LittleEndian(|ts|) + LittleEndian(TOP - |v|) + (Pointers(ts, 0) + LittleEndian(0))
             + s[..|s| - |Strings(ts)|];
    assert s == s[..|s| - |Strings(ts)|] + Strings(ts);
  }

  /** argv[I] points to a NUL-terminated copy of word I. */
  lemma WalkArg(ts: seq<seq<Byte>>, i: nat)
    requires Fits(ts) && i < |ts| && NUL !in ts[i]
    ensures var st := Layout(ts);
            var esp, p := TOP - |st|, WordAt(st, 12 + 4 * i);
            && esp <= p < TOP && CString(st[p - esp..]) == ts[i]
  {
    ArgPointer(ts, i);
    hide WordAt;
    var front := LayoutEnds(ts);
    StringAt(ts, i, front);
  }

  /** Walking the memory ST from the stack pointer ESP up finds: a zero return address, argc, a
      pointer to the vector just above, argc pointers to the words TS in order, each a
      NUL-terminated string in ST, and a null; all aligned to four bytes. */
  ghost predicate Walks(st: seq<Byte>, esp: int, ts: seq<seq<Byte>>) {
    && |st| >= 16 + 4 * |ts| && esp % 4 == 0
    && WordAt(st, 0) == 0 && WordAt(st, 4) == |ts| && WordAt(st, 8) == esp + 12 && WordAt(st, 12 + 4 * |ts|) == 0
    && forall i :: 0 <= i < |ts| ==> PointsTo(st, esp, WordAt(st, 12 + 4 * i), ts[i])
  }

  /** Address P holds the string T. */
  ghost predicate PointsTo(st: seq<Byte>, esp: int, p: int, t: seq<Byte>) {
    esp <= p < esp + |st| && CString(st[p - esp..]) == t
  }

  /** The layout of any words without NULs that fit can be walked. */
  lemma LayoutWalks(ts: seq<seq<Byte>>)
    requires Fits(ts) && forall i :: 0 <= i < |ts| ==> NUL !in ts[i]
    ensures Walks(Layout(ts), TOP - |Layout(ts)|, ts)
  {
    hide WordAt, CString, Layout, Fits;
    Walk(ts);
    var st := Layout(ts);
    forall i | 0 <= i < |ts| ensures PointsTo(st, TOP - |st|, WordAt(st, 12 + 4 * i), ts[i]) {
      WalkArg(ts, i);
    }
  }

  // ---- which command lines fit ----

  /** How many bytes of S are not spaces. */
  function Letters(s: seq<Byte>): nat {
    if s == [] then 0 else (if s[0] == SPACE then 0 else 1) + Letters(s[1..])
  }

  lemma {:induction false} StringsCons(a: seq<Byte>, b: seq<seq<Byte>>)
    ensures |Strings([a] + b)| == |a| + 1 + |Strings(b)|
  {
    var c := [a] + b;
    if b == [] {
      assert c[..0] == [] && Strings(c) == a + [NUL] + Strings(c[..0]);
    } else {
      var n := |b| - 1;
      assert c[..n + 1] == [a] + b[..n] && c[n + 1] == b[n];
      StringsCons(a, b[..n]);
    }
  }

  lemma {:induction false} LettersSkip(s: seq<Byte>)
    ensures Letters(SkipSpaces(s)) == Letters(s)
    ensures s != [] && s[0] == SPACE ==> |SkipSpaces(s)| < |s|
  {
    if s != [] && s[0] == SPACE {
      LettersSkip(s[1..]);
    }
  }

  lemma {:induction false} LettersRun(r: seq<Byte>, t: seq<Byte>)
    requires SPACE !in r
    ensures Letters(r + t) == |r| + Letters(t)
  {
    if r == [] {
      assert r + t == t;
    } else {
      assert (r + t)[1..] == r[1..] + t && r[0] in r;
      LettersRun(r[1..], t);
    }
  }

  /** What the words of a line take: a byte for each letter and one for each word's end; and
      how many there can be. */
  lemma {:induction false} LineSizes(s: seq<Byte>)
    ensures |Strings(Tokens(s))| == Letters(s) + |Tokens(s)|
    ensures var bound := if s != [] && s[0] == SPACE then |s| else |s| + 1;
            Letters(s) + |Tokens(s)| <= bound && 2 * |Tokens(s)| <= bound
    decreases |s|
  {
    var t := SkipSpaces(s);
    LettersSkip(s);
    if t != [] {
      var r := FirstRun(t);
      var rest := t[|r|..];
      assert t == r + rest;
      LettersRun(r, rest);
      LineSizes(rest);
      hide SkipSpaces, FirstRun, Strings, Letters;
      StringsCons(r, Tokens(rest));
    }
  }

  /** The layout of a command line fits in the page exactly when its letters and words leave room. */
  lemma FitsExactly(s: seq<Byte>)
    ensures var words := |Tokens(s)|;
            Fits(Tokens(s)) <==> (Letters(s) + words + 3) / 4 * 4 + 4 * words + 16 <= ROOM
  {
    hide Tokens, Strings, Letters;
    LineSizes(s);
    AlignedLength(Strings(Tokens(s)));
    RoundedUp(|Strings(Tokens(s))|);
  }

  lemma RoundedUp(n: nat)
    ensures n + (TOP - n) % 4 == (n + 3) / 4 * 4
  {
  }

  /** So every line of up to 1355 bytes fits. */
  lemma ShortLineFits(s: seq<Byte>)
    requires |s| <= 1355
    ensures Fits(Tokens(s))
  {
    hide Tokens, Letters, Fits;
    LineSizes(s);
    FitsExactly(s);
  }

  /** A line of N words of one letter. */
  function OneLetterWords(n: nat): (s: seq<Byte>)
    requires n > 0
    ensures |s| == 2 * n - 1
  {
    if n == 1 then [97] else [97, SPACE] + OneLetterWords(n - 1)
  }

  lemma {:induction false} OneLetterTokens(n: nat)
    requires n > 0
    ensures |Tokens(OneLetterWords(n))| == n && Letters(OneLetterWords(n)) == n
  {
    var s := OneLetterWords(n);
    assert s[0] == 97 && SkipSpaces(s) == s;
    if n == 1 {
      assert s[1..] == [];
      assert FirstRun(s) == [97] + FirstRun(s[1..]);
      assert Letters(s) == 1 + Letters(s[1..]);
      assert Tokens(s) == [FirstRun(s)] + Tokens(s[1..]);
    } else {
      var u := OneLetterWords(n - 1);
      assert s[1..] == [SPACE] + u && s[2..] == u && s[1..][1..] == u;
      OneLetterTokens(n - 1);
      assert FirstRun(s) == [97] + FirstRun(s[1..]) && FirstRun(s[1..]) == [];
      TokensAfterSpace(s[1..]);
      assert Tokens(s) == [FirstRun(s)] + Tokens(s[1..]);
      assert Letters(s[1..]) == Letters(u);
    }
  }

  /** But not every line that the command's page can hold: 679 words of one letter, 1357 bytes,
      reach below the stack's page, which setup_stack does not check. */
  lemma LongLineFails()
    ensures |OneLetterWords(679)| == 1357 && !Fits(Tokens(OneLetterWords(679)))
  {
    hide Tokens, Letters, Fits, OneLetterWords;
    OneLetterTokens(679);
    FitsExactly(OneLetterWords(679));
  }

  // ---- strtok_r ----

  /** The buffer holds a string that ends at N, and nothing from S on has been cut yet. */
  ghost predicate Uncut(buf: seq<Byte>, s: nat, n: nat) {
    s <= n < |buf| && buf[n] == NUL && NUL !in buf[s..n]
  }

  /** The first loop of strtok_r: past the delimiters. */
  method SkipDelimiters(buf: array<Byte>, s0: nat, ghost n: nat) returns (s: nat)
    requires Uncut(buf[..], s0, n)
    ensures s0 <= s <= n && buf[..][s..n] == SkipSpaces(buf[..][s0..n])
  {
    ghost var b := buf[..];
    s := s0;
    while buf[s] == SPACE
      invariant s0 <= s <= n && SkipSpaces(b[s..n]) == SkipSpaces(b[s0..n])
      decreases n - s
    {
      assert b[s..n][1..] == b[s + 1..n];
      s := s + 1;
    }
    assert s < n ==> b[s..n][0] == b[s];
  }

  lemma {:induction false} RunIs(t: seq<Byte>, k: nat)
    requires k <= |t| && SPACE !in t[..k] && (k < |t| ==> t[k] == SPACE)
    ensures FirstRun(t) == t[..k]
  {
    if k > 0 {
      assert t[..k][0] == t[0];
      assert t[1..][..k - 1] == t[..k][1..];
      RunIs(t[1..], k - 1);
    }
  }

  /** The second loop of strtok_r: to the end of the word. */
  method FindEnd(buf: array<Byte>, start: nat, ghost n: nat) returns (s: nat)
    requires Uncut(buf[..], start, n)
    ensures start <= s <= n && buf[..][start..s] == FirstRun(buf[..][start..n])
    ensures buf[s] == if s < n then SPACE else NUL
  {
    ghost var b := buf[..];
    s := start;
    while buf[s] != SPACE && buf[s] != NUL
      invariant start <= s <= n && SPACE !in b[start..s]
      decreases n - s
    {
      assert b[start..s + 1] == b[start..s] + [b[s]];
      s := s + 1;
    }
    ghost var t := b[start..n];
    assert s < n ==> b[s] in t by { assert s < n ==> t[s - start] == b[s]; }
    assert t[..s - start] == b[start..s];
    RunIs(t, s - start);
  }

  lemma NoSuchToken(b: seq<Byte>)
    requires SkipSpaces(b) == []
    ensures Tokens(b) == []
  {
  }

  lemma TokensSplit(b: seq<Byte>, t: seq<Byte>, k: nat)
    requires t == SkipSpaces(b) && t != [] && k <= |t| && FirstRun(t) == t[..k]
    ensures Tokens(b) == [t[..k]] + Tokens(t[k..])
  {
    assert |FirstRun(t)| == k;
  }

  lemma TokensAfterSpace(b: seq<Byte>)
    requires b != [] && b[0] == SPACE
    ensures Tokens(b) == Tokens(b[1..])
  {
  }

  /** strtok_r with the delimiter " ": the next word from S, terminated in place, and where to go on. */
  method StrtokR(buf: array<Byte>, s0: nat, ghost n: nat) returns (token: Option<nat>, save: nat)
    requires Uncut(buf[..], s0, n)
    modifies buf
    ensures s0 <= save <= n && Uncut(buf[..], save, n)
    ensures buf[..][save..] == old(buf[..])[save..]
    ensures token.None? <==> Tokens(old(buf[..])[s0..n]) == []
    ensures token.Some? ==>
              var ts := Tokens(old(buf[..])[s0..n]);
              && s0 <= token.value < save && CString(buf[..][token.value..]) == ts[0] && Tokens(buf[..][save..n]) == ts[1..]
  {
    hide Tokens, SkipSpaces, FirstRun, CString;
    ghost var b := buf[..];
    var s := SkipDelimiters(buf, s0, n);
    UncutFrom(b, s0, s, n);
    if buf[s] == NUL {
      NoSuchToken(b[s0..n]);
      return None, s;
    }
    var start := s;
    s := FindEnd(buf, start, n);
    CutWord(b, s0, start, s, n);
    token, save := Some(start), s;
    if buf[s] != NUL {
      buf[s] := NUL;
      save := s + 1;
    }
  }

  lemma UncutFrom(b: seq<Byte>, s0: nat, s: nat, n: nat)
    requires Uncut(b, s0, n) && s0 <= s <= n
    ensures Uncut(b, s, n) && (b[s] == NUL <==> s == n) && (s == n ==> b[s..n] == [])
  {
    assert b[s..n] == b[s0..n][s - s0..];
    assert s < n ==> b[s..n][0] == b[s];
  }

  /** Where a word ends, and how the buffer looks once it has been ended. */
  ghost function Ended(b: seq<Byte>, s: nat, n: nat): seq<Byte>
    requires s <= n < |b|
  {
    if s < n then b[s := NUL] else b
  }

  ghost function After(s: nat, n: nat): nat { if s < n then s + 1 else s }

  /** Ending the word at S, and going on after it. */
  lemma CutWord(b: seq<Byte>, s0: nat, start: nat, s: nat, n: nat)
    requires Uncut(b, s0, n) && s0 <= start < n && start <= s <= n && b[start..n] == SkipSpaces(b[s0..n])
    requires b[start..s] == FirstRun(b[start..n]) && b[s] == (if s < n then SPACE else NUL)
    ensures start < s
    ensures var b', save, ts := Ended(b, s, n), After(s, n), Tokens(b[s0..n]);
            && ts != [] && CString(b'[start..]) == ts[0] && Tokens(b'[save..n]) == ts[1..]
            && Uncut(b', save, n) && b'[save..] == b[save..]
  {
    hide Tokens, SkipSpaces, CString;
    CutTokens(b, s0, start, s, n);
    CutString(b, s0, start, s, n);
    CutRest(b, s0, s, n);
  }

  lemma CutTokens(b: seq<Byte>, s0: nat, start: nat, s: nat, n: nat)
    requires s0 <= start < n < |b| && start <= s <= n && b[start..n] == SkipSpaces(b[s0..n])
    requires b[start..s] == FirstRun(b[start..n]) && (s < n ==> b[s] == SPACE)
    ensures start < s && Tokens(b[s0..n]) == [b[start..s]] + Tokens(b[After(s, n)..n])
  {
    hide Tokens, SkipSpaces;
    var t := b[start..n];
    assert t[..s - start] == b[start..s] && t[s - start..] == b[s..n];
    FirstNotSpace(b[s0..n]);
    assert t[0] == b[start];
    TokensSplit(b[s0..n], t, s - start);
    if s < n {
      TokensAfterSpace(b[s..n]);
      assert b[s..n][1..] == b[s + 1..n];
    }
  }

  lemma FirstNotSpace(s: seq<Byte>)
    ensures SkipSpaces(s) != [] ==> SkipSpaces(s)[0] != SPACE && FirstRun(SkipSpaces(s)) != []
  {
  }

  lemma NoNulWithin(b: seq<Byte>, s0: nat, n: nat, i: nat, j: nat)
    requires s0 <= i <= j <= n <= |b| && NUL !in b[s0..n]
    ensures NUL !in b[i..j]
  {
    forall k | i <= k < j ensures b[k] != NUL {
      assert b[s0..n][k - s0] == b[k];
    }
  }

  lemma CutString(b: seq<Byte>, s0: nat, start: nat, s: nat, n: nat)
    requires Uncut(b, s0, n) && s0 <= start <= s <= n && b[s] == (if s < n then SPACE else NUL)
    ensures CString(Ended(b, s, n)[start..]) == b[start..s]
  {
    hide CString;
    assert Ended(b, s, n)[start..] == b[start..s] + [NUL] + b[s + 1..];
    NoNulWithin(b, s0, n, start, s);
    CStringBack(b[start..s], b[s + 1..]);
  }

  lemma CutRest(b: seq<Byte>, s0: nat, s: nat, n: nat)
    requires Uncut(b, s0, n) && s0 <= s <= n
    ensures var b', save := Ended(b, s, n), After(s, n);
            Uncut(b', save, n) && b'[save..] == b[save..] && b'[save..n] == b[save..n]
  {
    UncutFrom(b, s0, After(s, n), n);
    var b', save := Ended(b, s, n), After(s, n);
    assert b'[save..n] == b[save..n];
  }

  /** The first pass of setup_stack, on a copy: how many words there are. */
  method CountTokens(copy: array<Byte>, ghost n: nat) returns (argc: nat)
    requires Uncut(copy[..], 0, n)
    modifies copy
    ensures argc == |Tokens(old(copy[..])[..n])|
  {
    hide Tokens, CString;
    ghost var ts := Tokens(copy[..][..n]);
    assert copy[..][..n] == copy[..][0..n];
    argc := 0;
    var token, save := StrtokR(copy, 0, n);
    while token.Some?
      invariant save <= n && Uncut(copy[..], save, n) && copy.Length > n
      invariant token.None? ==> argc == |ts|
      invariant token.Some? ==> argc + 1 + |Tokens(copy[..][save..n])| == |ts| && save > 0
      decreases n - save, if token.Some? then 1 else 0
    {
      argc := argc + 1;
      token, save := StrtokR(copy, save, n);
    }
  }

  lemma CStringIs(b: seq<Byte>, s: nat, k: nat)
    requires s + k < |b| && b[s + k] == NUL && NUL !in b[s..s + k]
    ensures CString(b[s..]) == b[s..s + k]
  {
    CStringBack(b[s..s + k], b[s + k + 1..]);
    assert b[s..] == b[s..s + k] + [NUL] + b[s + k + 1..];
  }

  /** strlen of the string at S. */
  method Strlen(buf: array<Byte>, s: nat) returns (k: nat)
    requires s < buf.Length && exists i :: s <= i < buf.Length && buf[i] == NUL
    ensures s + k < buf.Length && buf[s + k] == NUL && buf[..][s..s + k] == CString(buf[..][s..])
  {
    hide CString;
    ghost var b := buf[..];
    k := 0;
    ghost var i :| s <= i < buf.Length && buf[i] == NUL;
    while buf[s + k] != NUL
      invariant s + k <= i && NUL !in b[s..s + k]
      decreases i - k
    {
      assert b[s..s + k + 1] == b[s..s + k] + [b[s + k]];
      k := k + 1;
    }
    CStringIs(b, s, k);
  }

  lemma OneMoreZero(s: seq<Byte>, k: nat)
    ensures ZeroBytes(0) + s == s && [NUL] + (ZeroBytes(k) + s) == ZeroBytes(k + 1) + s
  {
  }

  lemma AlignedIs(s: seq<Byte>, k: nat)
    requires |s| <= TOP && k == (TOP - |s|) % 4
    ensures Aligned(s) == ZeroBytes(k) + s
  {
  }

  const BASE := PHYS_BASE - 4096

  /** The page at the top of user memory, and the stack pointer. */
  class UserStack {
    const page: array<Byte>
    var esp: nat

    ghost predicate Valid()
      reads this
    {
      page.Length == 4096 && BASE <= esp <= TOP
    }

    /** From the stack pointer up to TOP. */
    ghost function Contents(): seq<Byte>
      requires Valid()
      reads this, page
    {
      page[esp - BASE..ROOM]
    }

    constructor (p: array<Byte>)
      requires p.Length == 4096
      ensures Valid() && page == p && esp == TOP && Contents() == []
    {
      page, esp := p, TOP;
    }

    /** Moves the stack pointer down and copies BYTES there. */
    method Push(bytes: seq<Byte>)
      requires Valid() && |bytes| <= esp - BASE
      modifies this, page
      ensures Valid() && esp == old(esp) - |bytes| && Contents() == bytes + old(Contents())
    {
      esp := esp - |bytes|;
      var o, k := esp - BASE, 0;
      while k < |bytes|
        invariant k <= |bytes| && esp == o + BASE && page[o..o + k] == bytes[..k]
        invariant page[o + |bytes|..] == old(page[..])[o + |bytes|..]
      {
        page[o + k] := bytes[k];
        assert page[o..o + k + 1] == page[o..o + k] + [bytes[k]];
        k := k + 1;
      }
      assert page[o..ROOM] == page[o..o + |bytes|] + page[o + |bytes|..ROOM];
      assert page[o + |bytes|..ROOM] == page[o + |bytes|..][..ROOM - o - |bytes|];
      assert old(page[..])[o + |bytes|..][..ROOM - o - |bytes|] == old(Contents());
      assert bytes[..|bytes|] == bytes;
    }

    /** Zeros down to a multiple of four. */
    method Align()
      requires Valid() && esp - BASE >= 4
      modifies this, page
      ensures Valid() && Contents() == Aligned(old(Contents())) && esp % 4 == 0
    {
      hide ZeroBytes, Aligned;
      ghost var s, k := Contents(), 0;
      OneMoreZero(s, 0);
      while esp % 4 != 0
        invariant Valid() && esp == old(esp) - k && k <= old(esp) % 4 && Contents() == ZeroBytes(k) + s
        decreases esp % 4
      {
        Push([NUL]);
        OneMoreZero(s, k);
        k := k + 1;
      }
      AlignedIs(s, k);
    }

    /** Copies the string at T onto the stack. */
    method PushString(fileName: array<Byte>, t: nat, ghost n: nat)
      requires Valid() && fileName != page && t <= n < fileName.Length && fileName[n] == NUL
      requires |CString(fileName[..][t..])| + 1 <= esp - BASE
      modifies this, page
      ensures Valid() && Contents() == CString(fileName[..][t..]) + [NUL] + old(Contents())
    {
      hide CString;
      var k := Strlen(fileName, t);
      assert fileName[t..t + k + 1] == fileName[..][t..t + k] + [NUL];
      Push(fileName[t..t + k + 1]);
    }

    /** The second pass of setup_stack: the words onto the stack, and their addresses. */
    method PushStrings(fileName: array<Byte>, ghost n: nat) returns (argv: seq<nat>)
      requires Valid() && esp == TOP && fileName != page && Uncut(fileName[..], 0, n)
      requires |Strings(Tokens(fileName[..][..n]))| <= ROOM
      modifies this, page, fileName
      ensures var ts := Tokens(old(fileName[..])[..n]);
              && Valid() && Contents() == Strings(ts) && |argv| == |ts|
              && forall i :: 0 <= i < |ts| ==> argv[i] == ArgAddress(ts, i)
    {
      hide Tokens, CString, Strings;
      ghost var ts := Tokens(fileName[..][..n]);
      assert fileName[..][..n] == fileName[..][0..n];
      argv := [];
      NoStrings();
      var token, save := StrtokR(fileName, 0, n);
      ghost var i := 0;
      while token.Some?
        invariant Valid() && i <= |ts| && Contents() == Strings(ts[..i]) && save <= n && Uncut(fileName[..], save, n)
        invariant |argv| == i && forall j :: 0 <= j < i ==> argv[j] == ArgAddress(ts, j)
        invariant token.None? ==> i == |ts|
        invariant token.Some? ==>
                    i < |ts| && token.value < save && CString(fileName[..][token.value..]) == ts[i]
                    && Tokens(fileName[..][save..n]) == ts[i + 1..]
        decreases n - save, if token.Some? then 1 else 0
      {
        StringsNext(ts, i);
        PushString(fileName, token.value, n);
        argv := argv + [esp];
        ContentsLength();
        token, save := StrtokR(fileName, save, n);
        i := i + 1;
      }
      assert ts[..|ts|] == ts;
    }

    lemma ContentsLength()
      requires Valid()
      ensures |Contents()| == TOP - esp
    {
    }

    /** The pointers, the last one first. */
    method PushPointers(argv: seq<nat>, ghost ts: seq<seq<Byte>>)
      requires Valid() && |argv| == |ts| && |Strings(ts)| <= TOP && 4 * |ts| <= esp - BASE
      requires forall i :: 0 <= i < |ts| ==> argv[i] == ArgAddress(ts, i)
      modifies this, page
      ensures Valid() && esp == old(esp) - 4 * |ts| && Contents() == Pointers(ts, 0) + old(Contents())
    {
      hide Strings, LittleEndian;
      ghost var st := Contents();
      var i: nat := |argv|;
      assert Pointers(ts, |ts|) + st == st;
      while i > 0
        invariant i <= |argv| && Valid() && esp == old(esp) - 4 * (|ts| - i) && Contents() == Pointers(ts, i) + st
      {
        i := i - 1;
        StringsShorter(ts, i + 1);
        LittleLength(argv[i]);
        Push(LittleEndian(argv[i]));
        assert LittleEndian(argv[i]) + (Pointers(ts, i + 1) + st) == Pointers(ts, i) + st;
      }
    }
  }

  lemma NoStrings()
    ensures Strings([]) == []
  {
  }

  lemma StringsNext(ts: seq<seq<Byte>>, i: nat)
    requires i < |ts|
    ensures Strings(ts[..i + 1]) == ts[i] + [NUL] + Strings(ts[..i]) && |Strings(ts[..i + 1])| <= |Strings(ts)|
    ensures ts[i..] == [ts[i]] + ts[i + 1..]
  {
    var us := ts[..i + 1];
    assert us[..i] == ts[..i] && us[i] == ts[i];
    StringsShorter(ts, i + 1);
  }

  /** setup_stack, once the page is there: the whole layout for the words of the command line. */
  method SetupStack(stack: UserStack, fileName: array<Byte>, ghost n: nat)
    requires stack.Valid() && stack.esp == TOP && fileName != stack.page && Uncut(fileName[..], 0, n)
    requires Fits(Tokens(fileName[..][..n]))
    modifies stack, stack.page, fileName
    ensures stack.Valid() && stack.Contents() == Layout(Tokens(old(fileName[..])[..n]))
    ensures Walks(stack.Contents(), stack.esp, Tokens(old(fileName[..])[..n]))
  {
    hide Tokens, Strings, LittleEndian, Pointers, Aligned, Walks;
    ghost var ts := Tokens(fileName[..][..n]);
    assert fileName[..][..n] == fileName[..][0..n];
    TokensNoNul(fileName[..][..n]);
    AlignedLength(Strings(ts));
    var copy := new Byte[fileName.Length](i requires 0 <= i < fileName.Length reads fileName => fileName[i]);
    assert copy[..] == fileName[..];
    var argc := CountTokens(copy, n);
    var argv := stack.PushStrings(fileName, n);
    stack.ContentsLength();
    stack.Align();
    stack.ContentsLength();
    FinishStack(stack, argc, argv, ts);
    stack.ContentsLength();
    LayoutWalks(ts);
  }

  method FinishStack(stack: UserStack, argc: nat, argv: seq<nat>, ghost ts: seq<seq<Byte>>)
    requires stack.Valid() && Fits(ts) && stack.Contents() == Aligned(Strings(ts)) && argc == |argv| == |ts|
    requires |Strings(ts)| <= TOP
    requires forall i :: 0 <= i < |ts| ==> argv[i] == ArgAddress(ts, i)
    modifies stack, stack.page
    ensures stack.Valid() && stack.Contents() == Layout(ts)
  {
    hide Vector, LittleEndian;
    PushVector(stack, argv, ts);
    stack.ContentsLength();
    LittleLength(0);
    LittleLength(argc);
    var self := stack.esp;
    LittleLength(self);
    ghost var v, a, b, c := Vector(ts), LittleEndian(0), LittleEndian(argc), LittleEndian(self);
    stack.Push(LittleEndian(self));
    stack.Push(LittleEndian(argc));
    stack.Push(LittleEndian(0));
    Regroup(a, b, c, v);
  }

  lemma Regroup(a: seq<Byte>, b: seq<Byte>, c: seq<Byte>, v: seq<Byte>)
    ensures a + (b + (c + v)) == a + b + c + v
  {
  }

  /** The null and the pointers. */
  method PushVector(stack: UserStack, argv: seq<nat>, ghost ts: seq<seq<Byte>>)
    requires stack.Valid() && Fits(ts) && stack.Contents() == Aligned(Strings(ts)) && |argv| == |ts|
    requires |Strings(ts)| <= TOP
    requires forall i :: 0 <= i < |ts| ==> argv[i] == ArgAddress(ts, i)
    modifies stack, stack.page
    ensures stack.Valid() && stack.Contents() == Vector(ts)
  {
    hide Strings, LittleEndian, Aligned, Pointers;
    stack.ContentsLength();
    LittleLength(0);
    stack.Push(LittleEndian(0));
    stack.PushPointers(argv, ts);
    ghost var a, b, c := Pointers(ts, 0), LittleEndian(0), Aligned(Strings(ts));
    assert a + (b + c) == a + b + c;
  }
}
