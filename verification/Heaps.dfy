/** Heaps on sequences under a caller's three-way comparison.  Nodes are numbered
    from 1, as in the sort that uses them: the children of I are 2I and 2I + 1. */
module Heaps {
  /** A strcmp-like comparison: its sign turns round with its arguments, and "not above" is transitive. */
  ghost predicate Ordering<T(!new)>(cmp: (T, T) -> int) {
    && (forall x, y :: cmp(x, y) > 0 <==> cmp(y, x) < 0)
    && (forall x, y, z :: cmp(x, y) <= 0 && cmp(y, z) <= 0 ==> cmp(x, z) <= 0)
  }

  function Swapped<T>(s: seq<T>, i: nat, j: nat): (r: seq<T>)
    requires i < |s| && j < |s|
    ensures |r| == |s|
  {
    s[i := s[j]][j := s[i]]
  }

  lemma SwappedElements<T>(s: seq<T>, i: nat, j: nat)
    requires i < |s| && j < |s|
    ensures multiset(Swapped(s, i, j)) == multiset(s)
  {
  }

  /** The node C is not above the node P. */
  ghost predicate NotAbove<T>(cmp: (T, T) -> int, s: seq<T>, c: nat, p: nat)
    requires 0 < c <= |s| && 0 < p <= |s|
  {
    cmp(s[c - 1], s[p - 1]) <= 0
  }

  /** Among nodes LO to N, no child is above its parent, except perhaps at HOLE,
      whose children are still not above HOLE's own parent.  HOLE 0 is none. */
  ghost predicate HeapWithHole<T>(cmp: (T, T) -> int, s: seq<T>, lo: nat, n: nat, hole: nat)
    requires 0 < lo && n <= |s|
  {
    && (forall c {:trigger s[c - 1]} :: 2 <= c <= n && c / 2 >= lo && c / 2 != hole ==> NotAbove(cmp, s, c, c / 2))
    && (forall c {:trigger s[c - 1]} :: 2 <= c <= n && c / 2 == hole && hole / 2 >= lo ==> NotAbove(cmp, s, c, hole / 2))
  }

  /** B is the largest of I and its children. */
  ghost predicate Largest<T>(cmp: (T, T) -> int, s: seq<T>, n: nat, i: nat, b: nat)
    requires 0 < i <= n <= |s|
  {
    && (b == i || (b / 2 == i && b <= n))
    && NotAbove(cmp, s, i, b)
    && (2 * i <= n ==> NotAbove(cmp, s, 2 * i, b))
    && (2 * i + 1 <= n ==> NotAbove(cmp, s, 2 * i + 1, b))
  }

  /** Moving the largest child up moves the hole down. */
  lemma SiftStep<T>(cmp: (T, T) -> int, s: seq<T>, lo: nat, n: nat, h: nat, b: nat)
    requires 0 < lo <= h <= n <= |s|
    requires HeapWithHole(cmp, s, lo, n, h) && Largest(cmp, s, n, h, b) && b != h
    ensures HeapWithHole(cmp, Swapped(s, h - 1, b - 1), lo, n, b)
  {
    var r := Swapped(s, h - 1, b - 1);
    forall c | 2 <= c <= n && c / 2 >= lo && c / 2 != b ensures NotAbove(cmp, r, c, c / 2) {
      SiftParent(cmp, s, lo, n, h, b, c);
    }
    forall c | 2 <= c <= n && c / 2 == b && b / 2 >= lo ensures NotAbove(cmp, r, c, b / 2) {
      assert NotAbove(cmp, s, c, c / 2) by { assert s[c - 1] == r[c - 1]; }
    }
  }

  lemma SiftParent<T>(cmp: (T, T) -> int, s: seq<T>, lo: nat, n: nat, h: nat, b: nat, c: nat)
    requires 0 < lo <= h <= n <= |s|
    requires HeapWithHole(cmp, s, lo, n, h) && Largest(cmp, s, n, h, b) && b != h
    requires 2 <= c <= n && c / 2 >= lo && c / 2 != b
    ensures NotAbove(cmp, Swapped(s, h - 1, b - 1), c, c / 2)
  {
    var r := Swapped(s, h - 1, b - 1);
    if c / 2 == h {
      assert c == 2 * h || c == 2 * h + 1;
      assert r[h - 1] == s[b - 1];
    } else if c == h {
      assert s[b - 1] == r[h - 1];
      assert NotAbove(cmp, s, b, h / 2);
    } else {
      assert NotAbove(cmp, s, c, c / 2) by { assert s[c - 1] == r[c - 1]; }
    }
  }

  lemma SiftDone<T>(cmp: (T, T) -> int, s: seq<T>, lo: nat, n: nat, h: nat)
    requires 0 < lo <= h <= n <= |s|
    requires HeapWithHole(cmp, s, lo, n, h) && Largest(cmp, s, n, h, h)
    ensures HeapWithHole(cmp, s, lo, n, 0)
  {
    forall c | 2 <= c <= n && c / 2 >= lo ensures NotAbove(cmp, s, c, c / 2) {
      if c / 2 == h {
        assert c == 2 * h || c == 2 * h + 1;
      } else {
        assert s[c - 1] == s[c - 1];
      }
    }
  }

  /** The root of a heap is not below any node. */
  lemma {:induction false} RootLargest<T(!new)>(cmp: (T, T) -> int, s: seq<T>, n: nat, c: nat)
    requires 1 <= c <= n <= |s| && Ordering(cmp) && HeapWithHole(cmp, s, 1, n, 0)
    ensures NotAbove(cmp, s, c, 1)
  {
    if c == 1 {
      assert cmp(s[0], s[0]) <= 0;
    } else {
      RootLargest(cmp, s, n, c / 2);
      assert NotAbove(cmp, s, c, c / 2) by { assert s[c - 1] == s[c - 1]; }
    }
  }

  ghost predicate Sorted<T>(cmp: (T, T) -> int, s: seq<T>) {
    forall i, j :: 0 <= i < j < |s| ==> cmp(s[i], s[j]) <= 0
  }

  /** The last elements of S, from N on, are sorted and not below any before them. */
  ghost predicate Settled<T>(cmp: (T, T) -> int, s: seq<T>, n: nat)
    requires n <= |s|
  {
    forall i, j :: 0 <= i < j < |s| && n <= j ==> cmp(s[i], s[j]) <= 0
  }

  /** Exchanging the root with the last node settles one more element and opens a hole at the root. */
  lemma TakeRoot<T(!new)>(cmp: (T, T) -> int, s: seq<T>, n: nat)
    requires 1 < n <= |s| && Ordering(cmp) && HeapWithHole(cmp, s, 1, n, 0) && Settled(cmp, s, n)
    ensures var r := Swapped(s, 0, n - 1); HeapWithHole(cmp, r, 1, n - 1, 1) && Settled(cmp, r, n - 1)
  {
    var r := Swapped(s, 0, n - 1);
    forall c | 1 <= c <= n ensures NotAbove(cmp, s, c, 1) {
      RootLargest(cmp, s, n, c);
    }
    hide Ordering;
    RootSettles(cmp, s, n);
    hide Settled;
    forall c | 2 <= c <= n - 1 && c / 2 >= 1 && c / 2 != 1 ensures NotAbove(cmp, r, c, c / 2) {
      assert NotAbove(cmp, s, c, c / 2) by { assert s[c - 1] == r[c - 1]; }
    }
  }

  lemma RootSettles<T>(cmp: (T, T) -> int, s: seq<T>, n: nat)
    requires 1 < n <= |s| && Settled(cmp, s, n) && forall c :: 1 <= c <= n ==> NotAbove(cmp, s, c, 1)
    ensures Settled(cmp, Swapped(s, 0, n - 1), n - 1)
  {
    var r := Swapped(s, 0, n - 1);
    forall i, j | 0 <= i < j < |s| && n - 1 <= j ensures cmp(r[i], r[j]) <= 0 {
      var i' := if i == 0 then n - 1 else if i == n - 1 then 0 else i;
      assert r[i] == s[i'];
      if j == n - 1 {
        assert NotAbove(cmp, s, i' + 1, 1);
      }
    }
  }

  /** Permuting the first N elements keeps the rest settled. */
  lemma SettledPermuted<T>(cmp: (T, T) -> int, s: seq<T>, r: seq<T>, n: nat)
    requires |s| == |r| && n <= |s| && Settled(cmp, s, n) && multiset(s[..n]) == multiset(r[..n]) && s[n..] == r[n..]
    ensures Settled(cmp, r, n)
  {
    forall i, j | 0 <= i < j < |r| && n <= j ensures cmp(r[i], r[j]) <= 0 {
      assert r[j] == r[n..][j - n] == s[n..][j - n] == s[j];
      if i < n {
        assert r[i] in multiset(r[..n]) by { assert r[i] == r[..n][i]; }
        assert r[i] in s[..n];
        var k :| 0 <= k < n && s[k] == r[i];
      } else {
        assert r[i] == r[n..][i - n] == s[n..][i - n] == s[i];
      }
    }
  }
}
