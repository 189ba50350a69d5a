/** The C library's sort and binary_search, on an array of bytes that holds
    elements of SIZE bytes each. */
module HeapSort {
  import opened Basics
  import Arithmetic
  import opened Blocks
  import opened Heaps

  type Elem = seq<Byte>

  /** The offset of element K, numbered from 0. */
  function Off(k: nat, size: nat): nat { k * size }

  lemma SlotEnds(k: nat, n: nat, size: nat)
    requires k < n
    ensures Off(k, size) + size <= Off(n, size)
  {
    assert (k + 1) * size <= n * size;
  }

  lemma SlotsApart(i: nat, j: nat, size: nat)
    ensures i != j ==> Off(i, size) + size <= Off(j, size) || Off(j, size) + size <= Off(i, size)
  {
    if i < j {
      SlotEnds(i, j, size);
    } else if j < i {
      SlotEnds(j, i, size);
    }
  }

  /** Element K, numbered from 0, of the bytes S. */
  ghost function Slot(s: seq<Byte>, size: nat, k: nat): Elem {
    if Off(k, size) + size <= |s| then s[Off(k, size)..Off(k, size) + size] else []
  }

  /** The first N elements of the bytes S. */
  ghost function View(s: seq<Byte>, n: nat, size: nat): (v: seq<Elem>)
    ensures |v| == n
  {
    if n == 0 then [] else View(s, n - 1, size) + [Slot(s, size, n - 1)]
  }

  lemma {:induction false} ViewAt(s: seq<Byte>, n: nat, size: nat, k: nat)
    requires k < n
    ensures View(s, n, size)[k] == Slot(s, size, k)
  {
    if k < n - 1 {
      ViewAt(s, n - 1, size, k);
    }
  }

  /** Where byte X comes from when the SIZE bytes at P and at Q are exchanged. */
  function Origin(p: nat, q: nat, size: nat, x: nat): nat {
    if p <= x < p + size then x - p + q else if q <= x < q + size then x - q + p else x
  }

  /** R is S with the SIZE bytes at P and at Q exchanged. */
  ghost predicate BytesSwapped(s: seq<Byte>, r: seq<Byte>, p: nat, q: nat, size: nat) {
    && |r| == |s| && p + size <= |s| && q + size <= |s|
    && forall x {:trigger r[x]} :: 0 <= x < |s| ==> r[x] == s[Origin(p, q, size, x)]
  }

  lemma ViewSwapped(s: seq<Byte>, r: seq<Byte>, n: nat, size: nat, i: nat, j: nat)
    requires Off(n, size) <= |s| && i < n && j < n && i != j && BytesSwapped(s, r, Off(i, size), Off(j, size), size)
    ensures View(r, n, size) == Swapped(View(s, n, size), i, j)
  {
    hide View, Slot, BytesSwapped;
    var v, w := View(s, n, size), View(r, n, size);
    forall k | 0 <= k < n ensures w[k] == Swapped(v, i, j)[k] {
      ViewAt(r, n, size, k);
      ViewAt(s, n, size, k);
      ViewAt(s, n, size, i);
      ViewAt(s, n, size, j);
      SwappedSlot(s, r, n, size, i, j, k);
    }
  }

  lemma SwappedLength(s: seq<Byte>, r: seq<Byte>, p: nat, q: nat, size: nat)
    requires BytesSwapped(s, r, p, q, size)
    ensures |r| == |s|
  {
  }

  /** Slot K of the swapped bytes. */
  lemma SwappedSlot(s: seq<Byte>, r: seq<Byte>, n: nat, size: nat, i: nat, j: nat, k: nat)
    requires Off(n, size) <= |s| && i < n && j < n && i != j && k < n && BytesSwapped(s, r, Off(i, size), Off(j, size), size)
    ensures Slot(r, size, k) == Slot(s, size, if k == i then j else if k == j then i else k)
  {
    hide BytesSwapped, Slot, Off;
    SlotAt(s, r, n, size, i, j, i);
    SlotAt(s, r, n, size, i, j, j);
    SlotAt(s, r, n, size, i, j, k);
    SlotsApart(i, j, size);
    SlotsApart(k, i, size);
    SlotsApart(k, j, size);
    var p, q, o := Off(i, size), Off(j, size), Off(k, size);
    SlotBytes(s, r, p, q, o, size, if k == i then 1 else if k == j then 2 else 0);
  }

  lemma SlotAt(s: seq<Byte>, r: seq<Byte>, n: nat, size: nat, i: nat, j: nat, k: nat)
    requires Off(n, size) <= |s| && k < n && BytesSwapped(s, r, Off(i, size), Off(j, size), size)
    ensures Off(k, size) + size <= |s| == |r|
    ensures Slot(r, size, k) == r[Off(k, size)..Off(k, size) + size] && Slot(s, size, k) == s[Off(k, size)..Off(k, size) + size]
  {
    hide BytesSwapped;
    SwappedLength(s, r, Off(i, size), Off(j, size), size);
    SlotEnds(k, n, size);
  }

  lemma SlotBytes(s: seq<Byte>, r: seq<Byte>, p: nat, q: nat, k: nat, size: nat, which: nat)
    requires BytesSwapped(s, r, p, q, size) && k + size <= |s|
    requires p + size <= q || q + size <= p
    requires which == 1 ==> k == p
    requires which == 2 ==> k == q
    requires which == 0 ==> (k + size <= p || p + size <= k) && (k + size <= q || q + size <= k)
    requires which <= 2
    ensures var m := if which == 1 then q else if which == 2 then p else k;
            r[k..k + size] == s[m..m + size]
  {
    var m := if which == 1 then q else if which == 2 then p else k;
    var u, v := r[k..k + size], s[m..m + size];
    forall x | 0 <= x < size ensures u[x] == v[x] {
      assert u[x] == r[k + x] && v[x] == s[m + x];
    }
  }

  lemma SlotIs(s: seq<Byte>, n: nat, size: nat, k: nat)
    requires Off(n, size) <= |s| && k < n
    ensures Off(k, size) + size <= Off(n, size)
    ensures View(s, n, size)[k] == s[Off(k, size)..Off(k, size) + size]
  {
    SlotEnds(k, n, size);
    ViewAt(s, n, size, k);
  }

  /** One turn of the swapping loop. */
  lemma SwapOne(s: seq<Byte>, r: seq<Byte>, p: nat, q: nat, t: nat)
    requires BytesSwapped(s, r, p, q, t) && p + t < |s| && q + t < |s| && (p + t < q || q + t < p)
    ensures BytesSwapped(s, r[p + t := r[q + t]][q + t := r[p + t]], p, q, t + 1)
  {
    assert r[p + t] == s[p + t] && r[q + t] == s[q + t];
  }

  lemma TailKept(s: seq<Byte>, r: seq<Byte>, p: nat, q: nat, size: nat, m: nat)
    requires BytesSwapped(s, r, p, q, size) && p + size <= m && q + size <= m <= |s|
    ensures r[m..] == s[m..]
  {
    forall x | m <= x < |s| ensures r[x] == s[x] {
    }
  }

  /** do_swap: exchanges elements I and J, numbered from 1. */
  method DoSwap(a: array<Byte>, i: nat, j: nat, size: nat, ghost n: nat)
    requires Off(n, size) <= a.Length && 1 <= i <= n && 1 <= j <= n && i != j
    modifies a
    ensures View(a[..], n, size) == Swapped(old(View(a[..], n, size)), i - 1, j - 1)
    ensures a[..][Off(n, size)..] == old(a[..])[Off(n, size)..]
  {
    hide View, BytesSwapped;
    ghost var s := a[..];
    SlotEnds(i - 1, n, size);
    SlotEnds(j - 1, n, size);
    SlotsApart(i - 1, j - 1, size);
    var p, q := Off(i - 1, size), Off(j - 1, size);
    SwapBytes(a, p, q, size);
    ViewSwapped(s, a[..], n, size, i - 1, j - 1);
    TailKept(s, a[..], p, q, size, Off(n, size));
  }

  method SwapBytes(a: array<Byte>, p: nat, q: nat, size: nat)
    requires p + size <= a.Length && q + size <= a.Length && (p + size <= q || q + size <= p)
    modifies a
    ensures BytesSwapped(old(a[..]), a[..], p, q, size)
  {
    ghost var s := a[..];
    var t := 0;
    assert BytesSwapped(s, a[..], p, q, 0);
    hide BytesSwapped;
    while t < size
      invariant t <= size && BytesSwapped(s, a[..], p, q, t)
    {
      ghost var r := a[..];
      SwapOne(s, r, p, q, t);
      var b := a[p + t];
      a[p + t] := a[q + t];
      a[q + t] := b;
      assert a[..] == r[p + t := r[q + t]][q + t := r[p + t]];
      t := t + 1;
    }
  }

  /** do_compare: compares elements I and J, numbered from 1. */
  method DoCompare(a: array<Byte>, i: nat, j: nat, size: nat, cmp: (Elem, Elem) -> int, ghost n: nat) returns (c: int)
    requires Off(n, size) <= a.Length && 1 <= i <= n && 1 <= j <= n
    ensures c == cmp(View(a[..], n, size)[i - 1], View(a[..], n, size)[j - 1])
  {
    hide View;
    SlotIs(a[..], n, size, i - 1);
    SlotIs(a[..], n, size, j - 1);
    var p, q := Off(i - 1, size), Off(j - 1, size);
    c := CompareAt(a, p, q, size, cmp);
  }

  method CompareAt(a: array<Byte>, p: nat, q: nat, size: nat, cmp: (Elem, Elem) -> int) returns (c: int)
    requires p + size <= a.Length && q + size <= a.Length
    ensures c == cmp(a[..][p..p + size], a[..][q..q + size])
  {
    c := cmp(a[p..p + size], a[q..q + size]);
    assert a[p..p + size] == a[..][p..p + size] && a[q..q + size] == a[..][q..q + size];
  }

  /** The part of the loop of heapify that finds the largest of node I and its children. */
  method FindLargest(a: array<Byte>, i: nat, cnt: nat, size: nat, cmp: (Elem, Elem) -> int, ghost n: nat) returns (b: nat)
    requires Off(n, size) <= a.Length && 1 <= i <= cnt <= n && Ordering(cmp)
    ensures Largest(cmp, View(a[..], n, size), cnt, i, b)
  {
    hide View;
    var left, right := 2 * i, 2 * i + 1;
    b := i;
    if left <= cnt {
      var c := DoCompare(a, left, b, size, cmp, n);
      if c > 0 {
        b := left;
      }
    }
    if right <= cnt {
      var c := DoCompare(a, right, b, size, cmp, n);
      if c > 0 {
        b := right;
      }
    }
  }

  /** R is S with its first N elements in another order. */
  ghost predicate Reordered(s: seq<Elem>, r: seq<Elem>, n: nat) {
    |s| == |r| && n <= |s| && multiset(s[..n]) == multiset(r[..n]) && s[n..] == r[n..]
  }

  lemma ReorderedSwap(s: seq<Elem>, r: seq<Elem>, n: nat, i: nat, j: nat)
    requires Reordered(s, r, n) && i < n && j < n
    ensures Reordered(s, Swapped(r, i, j), n)
  {
    SwappedElements(r[..n], i, j);
    assert Swapped(r, i, j)[..n] == Swapped(r[..n], i, j);
    assert Swapped(r, i, j)[n..] == r[n..];
  }

  /** heapify: floats node I down the heap of the first CNT elements. */
  method Heapify(a: array<Byte>, i0: nat, cnt: nat, size: nat, cmp: (Elem, Elem) -> int, ghost n: nat)
    requires Off(n, size) <= a.Length && 1 <= i0 <= cnt <= n && Ordering(cmp)
    requires HeapWithHole(cmp, View(a[..], n, size), i0, cnt, i0)
    modifies a
    ensures HeapWithHole(cmp, View(a[..], n, size), i0, cnt, 0)
    ensures Reordered(old(View(a[..], n, size)), View(a[..], n, size), cnt)
    ensures a[..][Off(n, size)..] == old(a[..])[Off(n, size)..]
  {
    hide View, HeapWithHole, Reordered, Ordering, Largest;
    ghost var s := View(a[..], n, size);
    ReorderedSelf(s, cnt);
    var i := i0;
    while true
      invariant i0 <= i <= cnt && HeapWithHole(cmp, View(a[..], n, size), i0, cnt, i)
      invariant Reordered(s, View(a[..], n, size), cnt)
      invariant a[..][Off(n, size)..] == old(a[..])[Off(n, size)..]
      decreases cnt - i
    {
      ghost var v := View(a[..], n, size);
      var b := FindLargest(a, i, cnt, size, cmp, n);
      LargestIs(cmp, v, cnt, i, b);
      if b == i {
        SiftDone(cmp, v, i0, cnt, i);
        break;
      }
      SiftStep(cmp, v, i0, cnt, i, b);
      ReorderedSwap(s, v, cnt, i - 1, b - 1);
      DoSwap(a, i, b, size, n);
      i := b;
    }
  }

  lemma ReorderedSelf(s: seq<Elem>, n: nat)
    requires n <= |s|
    ensures Reordered(s, s, n)
  {
  }

  lemma LargestIs(cmp: (Elem, Elem) -> int, s: seq<Elem>, n: nat, i: nat, b: nat)
    requires 0 < i <= n <= |s| && Largest(cmp, s, n, i, b)
    ensures b == i || i < b <= n
  {
  }

  lemma NoParents(cmp: (Elem, Elem) -> int, s: seq<Elem>, n: nat)
    requires n <= |s|
    ensures HeapWithHole(cmp, s, n / 2 + 1, n, 0)
  {
  }

  lemma OpenHole(cmp: (Elem, Elem) -> int, s: seq<Elem>, i: nat, n: nat)
    requires 0 < i && n <= |s| && HeapWithHole(cmp, s, i + 1, n, 0)
    ensures HeapWithHole(cmp, s, i, n, i)
  {
    forall c | 2 <= c <= n && c / 2 >= i && c / 2 != i ensures NotAbove(cmp, s, c, c / 2) {
      assert s[c - 1] == s[c - 1];
    }
  }

  lemma ReorderedWhole(s: seq<Elem>, r: seq<Elem>, n: nat)
    requires Reordered(s, r, n)
    ensures |s| == |r| && multiset(s) == multiset(r)
  {
    assert s == s[..n] + s[n..] && r == r[..n] + r[n..];
  }

  lemma SettledSorted(cmp: (Elem, Elem) -> int, s: seq<Elem>, n: nat)
    requires n <= 1 && n <= |s| && Settled(cmp, s, n)
    ensures Sorted(cmp, s)
  {
  }

  lemma SettledSame(cmp: (Elem, Elem) -> int, s: seq<Elem>, r: seq<Elem>, n: nat)
    requires Reordered(s, r, n) && Settled(cmp, s, n)
    ensures Settled(cmp, r, n)
  {
    SettledPermuted(cmp, s, r, n);
  }

  /** The first loop of sort: makes a heap. */
  method BuildHeap(a: array<Byte>, cnt: nat, size: nat, cmp: (Elem, Elem) -> int)
    requires Off(cnt, size) <= a.Length && Ordering(cmp)
    modifies a
    ensures HeapWithHole(cmp, View(a[..], cnt, size), 1, cnt, 0)
    ensures multiset(View(a[..], cnt, size)) == multiset(old(View(a[..], cnt, size)))
    ensures a[..][Off(cnt, size)..] == old(a[..])[Off(cnt, size)..]
  {
    hide View, HeapWithHole, Reordered, Ordering;
    NoParents(cmp, View(a[..], cnt, size), cnt);
    var i: nat := cnt / 2;
    while i > 0
      invariant i <= cnt / 2 && HeapWithHole(cmp, View(a[..], cnt, size), i + 1, cnt, 0)
      invariant multiset(View(a[..], cnt, size)) == multiset(old(View(a[..], cnt, size)))
      invariant a[..][Off(cnt, size)..] == old(a[..])[Off(cnt, size)..]
    {
      ghost var v := View(a[..], cnt, size);
      OpenHole(cmp, v, i, cnt);
      Heapify(a, i, cnt, size, cmp, cnt);
      ReorderedWhole(v, View(a[..], cnt, size), cnt);
      i := i - 1;
    }
  }

  /** sort: the elements in order, none lost, nothing else touched. */
  method Sort(a: array<Byte>, cnt: nat, size: nat, cmp: (Elem, Elem) -> int)
    requires Off(cnt, size) <= a.Length && size > 0 && Ordering(cmp)
    modifies a
    ensures Sorted(cmp, View(a[..], cnt, size))
    ensures multiset(View(a[..], cnt, size)) == multiset(old(View(a[..], cnt, size)))
    ensures a[..][Off(cnt, size)..] == old(a[..])[Off(cnt, size)..]
  {
    hide View, HeapWithHole, Reordered, Ordering, Settled, Sorted;
    BuildHeap(a, cnt, size, cmp);
    AllSettled(cmp, View(a[..], cnt, size));
    var i: nat := cnt;
    while i > 1
      invariant i <= cnt && (cnt > 0 ==> i > 0) && HeapWithHole(cmp, View(a[..], cnt, size), 1, i, 0)
      invariant Settled(cmp, View(a[..], cnt, size), i)
      invariant multiset(View(a[..], cnt, size)) == multiset(old(View(a[..], cnt, size)))
      invariant a[..][Off(cnt, size)..] == old(a[..])[Off(cnt, size)..]
    {
      TakeRoot(cmp, View(a[..], cnt, size), i);
      SwappedElements(View(a[..], cnt, size), 0, i - 1);
      DoSwap(a, 1, i, size, cnt);
      ghost var v := View(a[..], cnt, size);
      Heapify(a, 1, i - 1, size, cmp, cnt);
      ReorderedWhole(v, View(a[..], cnt, size), i - 1);
      SettledSame(cmp, v, View(a[..], cnt, size), i - 1);
      i := i - 1;
    }
    SettledSorted(cmp, View(a[..], cnt, size), i);
  }

  lemma AllSettled(cmp: (Elem, Elem) -> int, s: seq<Elem>)
    ensures Settled(cmp, s, |s|)
  {
  }

  // ---- binary search ----

  /** Everything before LO is below KEY, everything from HI on is above it. */
  ghost predicate Narrowed(cmp: (Elem, Elem) -> int, s: seq<Elem>, key: Elem, lo: nat, hi: nat) {
    && lo <= hi <= |s|
    && (forall k :: 0 <= k < lo ==> cmp(key, s[k]) > 0)
    && (forall k :: hi <= k < |s| ==> cmp(key, s[k]) < 0)
  }

  lemma NarrowBelow(cmp: (Elem, Elem) -> int, s: seq<Elem>, key: Elem, lo: nat, hi: nat, m: nat)
    requires Ordering(cmp) && Sorted(cmp, s) && Narrowed(cmp, s, key, lo, hi) && lo <= m < hi && cmp(key, s[m]) < 0
    ensures Narrowed(cmp, s, key, lo, m)
  {
    forall k | m < k < |s| ensures cmp(key, s[k]) < 0 {
      BelowThrough(cmp, key, s[m], s[k]);
    }
  }

  lemma NarrowAbove(cmp: (Elem, Elem) -> int, s: seq<Elem>, key: Elem, lo: nat, hi: nat, m: nat)
    requires Ordering(cmp) && Sorted(cmp, s) && Narrowed(cmp, s, key, lo, hi) && lo <= m < hi && cmp(key, s[m]) > 0
    ensures Narrowed(cmp, s, key, m + 1, hi)
  {
    forall k | 0 <= k < m ensures cmp(key, s[k]) > 0 {
      AboveThrough(cmp, key, s[m], s[k]);
    }
  }

  lemma BelowThrough(cmp: (Elem, Elem) -> int, x: Elem, y: Elem, z: Elem)
    requires Ordering(cmp) && cmp(x, y) < 0 && cmp(y, z) <= 0
    ensures cmp(x, z) < 0
  {
    assert cmp(z, x) <= 0 ==> cmp(y, x) <= 0;
  }

  lemma AboveThrough(cmp: (Elem, Elem) -> int, x: Elem, y: Elem, z: Elem)
    requires Ordering(cmp) && cmp(x, y) > 0 && cmp(z, y) <= 0
    ensures cmp(x, z) > 0
  {
    assert cmp(x, z) <= 0 ==> cmp(x, y) <= 0;
  }

  /** binary_search: the byte offset of an element that matches, or none exactly when none matches. */
  method BinarySearch(key: Elem, a: array<Byte>, cnt: nat, size: nat, cmp: (Elem, Elem) -> int) returns (r: Option<nat>)
    requires Off(cnt, size) <= a.Length && size > 0 && Ordering(cmp) && Sorted(cmp, View(a[..], cnt, size))
    ensures r.None? ==> forall k :: 0 <= k < cnt ==> cmp(key, View(a[..], cnt, size)[k]) != 0
    ensures r.Some? ==> exists k: nat :: k < cnt && r.value == k * size && cmp(key, View(a[..], cnt, size)[k]) == 0
  {
    hide View, Ordering, Sorted;
    ghost var v := View(a[..], cnt, size);
    var first, last := 0, size * cnt;
    ghost var lo: nat, hi: nat := 0, cnt;
    while first < last
      invariant first == lo * size && last == hi * size && Narrowed(cmp, v, key, lo, hi)
      decreases hi - lo
    {
      RangeIs(lo, hi, size, first, last);
      var range := (last - first) / size;
      var middle := first + range / 2 * size;
      ghost var m := lo + range / 2;
      MiddleIs(lo, range / 2, size);
      SlotIs(a[..], cnt, size, m);
      var c := cmp(key, a[middle..middle + size]);
      assert a[middle..middle + size] == a[..][middle..middle + size];
      if c < 0 {
        NarrowBelow(cmp, v, key, lo, hi, m);
        last, hi := middle, m;
      } else if c > 0 {
        NarrowAbove(cmp, v, key, lo, hi, m);
        first, lo := middle + size, m + 1;
      } else {
        return Some(middle);
      }
    }
    RangeEmpty(lo, hi, size);
    return None;
  }

  lemma RangeIs(lo: nat, hi: nat, size: nat, first: nat, last: nat)
    requires size > 0 && first == lo * size && last == hi * size && first < last && lo <= hi
    ensures (last - first) / size == hi - lo && lo < hi
  {
    assert last - first == (hi - lo) * size;
    QuotientOf(hi - lo, size);
  }

  lemma QuotientOf(q: nat, d: nat)
    requires d > 0
    ensures q * d / d == q
  {
    Arithmetic.QuotientIs(q * d, d, q);
  }

  lemma MiddleIs(lo: nat, h: nat, size: nat)
    ensures lo * size + h * size == (lo + h) * size && (lo + h) * size + size == (lo + h + 1) * size
  {
  }

  lemma RangeEmpty(lo: nat, hi: nat, size: nat)
    requires size > 0 && lo <= hi && lo * size >= hi * size
    ensures lo == hi
  {
    if lo < hi {
      SlotEnds(lo, hi, size);
    }
  }
}
