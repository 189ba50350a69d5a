/** What list_sort means on a sequence: a natural merge sort under a caller's
    comparison, which is only asked to be a strict weak order on the elements. */
module MergeSort {
  ghost predicate StrictWeak<T>(less: (T, T) -> bool, s: seq<T>) {
    && (forall x :: x in s ==> !less(x, x))
    && (forall x, y, z :: x in s && y in s && z in s && less(x, y) && less(y, z) ==> less(x, z))
    && (forall x, y, z :: x in s && y in s && z in s && !less(x, y) && !less(y, z) ==> !less(x, z))
  }

  ghost predicate Within<T>(s: seq<T>, all: seq<T>) {
    forall i :: 0 <= i < |s| ==> s[i] in all
  }

  lemma WithinSlice<T>(s: seq<T>, i: nat, j: nat, all: seq<T>)
    requires i <= j <= |s| && Within(s, all)
    ensures Within(s[i..j], all) && Within(s[i..], all) && Within(s[..j], all)
  {
  }

  lemma WithinMerge<T>(less: (T, T) -> bool, a: seq<T>, b: seq<T>, all: seq<T>)
    requires Within(a, all) && Within(b, all)
    ensures Within(Merge(less, a, b), all)
  {
    hide Merge;
    var m := Merge(less, a, b);
    forall i | 0 <= i < |m| ensures m[i] in all {
      MergeMember(less, a, b, m[i]);
    }
  }

  /** No element is less than one before it. */
  ghost predicate Sorted<T>(less: (T, T) -> bool, s: seq<T>) {
    forall i, j :: 0 <= i < j < |s| ==> !less(s[j], s[i])
  }

  predicate Equiv<T>(less: (T, T) -> bool, x: T, y: T) {
    !less(x, y) && !less(y, x)
  }

  /** The elements equivalent to X, in order. */
  ghost function Class<T>(less: (T, T) -> bool, x: T, s: seq<T>): seq<T> {
    if s == [] then []
    else if Equiv(less, x, s[0]) then [s[0]] + Class(less, x, s[1..])
    else Class(less, x, s[1..])
  }

  /** R holds the elements of S, and equivalent elements keep their order. */
  ghost predicate SameClasses<T>(less: (T, T) -> bool, s: seq<T>, r: seq<T>) {
    && multiset(s) == multiset(r)
    && forall x :: x in s ==> Class(less, x, s) == Class(less, x, r)
  }

  lemma {:induction false} ClassConcat<T>(less: (T, T) -> bool, x: T, a: seq<T>, b: seq<T>)
    ensures Class(less, x, a + b) == Class(less, x, a) + Class(less, x, b)
  {
    if a == [] {
      assert a + b == b;
    } else {
      hide Equiv;
      assert (a + b)[1..] == a[1..] + b && (a + b)[0] == a[0];
      ClassConcat(less, x, a[1..], b);
    }
  }

  lemma {:induction false} ClassEmpty<T>(less: (T, T) -> bool, x: T, s: seq<T>)
    requires forall y :: y in s ==> !Equiv(less, x, y)
    ensures Class(less, x, s) == []
  {
    if s != [] {
      assert s[0] in s;
      ClassEmpty(less, x, s[1..]);
    }
  }

  // ---- merging ----

  ghost function Merge<T>(less: (T, T) -> bool, a: seq<T>, b: seq<T>): seq<T>
    decreases |a| + |b|
  {
    if a == [] then b
    else if b == [] then a
    else if !less(b[0], a[0]) then [a[0]] + Merge(less, a[1..], b)
    else [b[0]] + Merge(less, a, b[1..])
  }

  lemma {:induction false} MergeElements<T>(less: (T, T) -> bool, a: seq<T>, b: seq<T>)
    ensures multiset(Merge(less, a, b)) == multiset(a) + multiset(b)
    ensures |Merge(less, a, b)| == |a| + |b|
    decreases |a| + |b|
  {
    if a == [] || b == [] {
    } else if !less(b[0], a[0]) {
      assert a == [a[0]] + a[1..];
      MergeElements(less, a[1..], b);
    } else {
      assert b == [b[0]] + b[1..];
      MergeElements(less, a, b[1..]);
    }
  }

  lemma MemberOfMultiset<T>(s: seq<T>, r: seq<T>)
    requires multiset(s) == multiset(r)
    ensures |s| == |r| && forall x :: x in s <==> x in r
  {
    assert |s| == |multiset(s)| == |multiset(r)| == |r|;
    forall x ensures x in s <==> x in r {
      assert x in s <==> x in multiset(s);
      assert x in r <==> x in multiset(r);
    }
  }

  lemma MergeMember<T>(less: (T, T) -> bool, a: seq<T>, b: seq<T>, x: T)
    ensures x in Merge(less, a, b) <==> x in a || x in b
  {
    MergeElements(less, a, b);
    hide Merge;
    assert x in multiset(Merge(less, a, b)) <==> x in multiset(a) || x in multiset(b);
  }

  /** X is not above anything in S. */
  ghost predicate Below<T>(less: (T, T) -> bool, x: T, s: seq<T>) {
    forall y :: y in s ==> !less(y, x)
  }

  lemma SortedCons<T>(less: (T, T) -> bool, x: T, s: seq<T>)
    ensures Sorted(less, [x] + s) <==> Below(less, x, s) && Sorted(less, s)
  {
    var t := [x] + s;
    if Sorted(less, t) {
      forall y | y in s ensures !less(y, x) {
        var k :| 0 <= k < |s| && s[k] == y;
        assert t[k + 1] == y && t[0] == x;
      }
      forall i, j | 0 <= i < j < |s| ensures !less(s[j], s[i]) {
        assert t[i + 1] == s[i] && t[j + 1] == s[j];
      }
    }
    if Below(less, x, s) && Sorted(less, s) {
      forall i, j | 0 <= i < j < |t| ensures !less(t[j], t[i]) {
        assert t[j] == s[j - 1] && s[j - 1] in s;
      }
    }
  }

  lemma SortedHead<T>(less: (T, T) -> bool, s: seq<T>)
    requires s != []
    ensures Sorted(less, s) <==> Below(less, s[0], s[1..]) && Sorted(less, s[1..])
  {
    assert s == [s[0]] + s[1..];
    SortedCons(less, s[0], s[1..]);
  }

  lemma {:induction false} MergeSorted<T>(less: (T, T) -> bool, a: seq<T>, b: seq<T>, all: seq<T>)
    requires StrictWeak(less, all) && Within(a, all) && Within(b, all)
    requires Sorted(less, a) && Sorted(less, b)
    ensures Sorted(less, Merge(less, a, b))
    decreases |a| + |b|
  {
    hide StrictWeak, Sorted, Below;
    if a == [] || b == [] {
    } else {
      assert a[0] in all && b[0] in all;
      SortedHead(less, a);
      SortedHead(less, b);
      if !less(b[0], a[0]) {
        MergeSorted(less, a[1..], b, all);
        BelowHead(less, a[0], b, all);
        MergeBelow(less, a[0], a[1..], b);
        SortedCons(less, a[0], Merge(less, a[1..], b));
      } else {
        Asymmetric(less, b[0], a[0], all);
        MergeSorted(less, a, b[1..], all);
        BelowHead(less, b[0], a, all);
        MergeBelow(less, b[0], a, b[1..]);
        SortedCons(less, b[0], Merge(less, a, b[1..]));
      }
    }
  }

  lemma Asymmetric<T>(less: (T, T) -> bool, x: T, y: T, all: seq<T>)
    requires StrictWeak(less, all) && x in all && y in all && less(x, y)
    ensures !less(y, x)
  {
  }

  lemma BelowHead<T>(less: (T, T) -> bool, x: T, a: seq<T>, all: seq<T>)
    requires StrictWeak(less, all) && x in all && Within(a, all)
    requires a != [] && !less(a[0], x) && Below(less, a[0], a[1..])
    ensures Below(less, x, a)
  {
    forall y | y in a ensures !less(y, x) {
      assert a[0] in all && y in all;
      if y != a[0] {
        assert y in a[1..];
        assert !less(y, a[0]);
      }
    }
  }

  lemma MergeBelow<T>(less: (T, T) -> bool, x: T, a: seq<T>, b: seq<T>)
    requires Below(less, x, a) && Below(less, x, b)
    ensures Below(less, x, Merge(less, a, b))
  {
    forall y | y in Merge(less, a, b) ensures !less(y, x) {
      MergeMember(less, a, b, y);
    }
  }

  /** Nothing in a sorted sequence is equivalent to an element below its head. */
  lemma NoEquivalent<T>(less: (T, T) -> bool, x: T, y: T, a: seq<T>, all: seq<T>)
    requires StrictWeak(less, all) && x in all && y in all && Within(a, all)
    requires a != [] && Sorted(less, a) && less(y, a[0]) && Equiv(less, x, y)
    ensures Class(less, x, a) == []
  {
    SortedHead(less, a);
    forall z | z in a ensures !Equiv(less, x, z) {
      assert !less(z, a[0]) by {
        if z != a[0] { assert z in a[1..]; }
      }
      assert a[0] in all;
      assert less(y, z);
    }
    ClassEmpty(less, x, a);
  }

  /** Merging is stable: equivalent elements of A stay before those of B. */
  lemma {:induction false} MergeClass<T>(less: (T, T) -> bool, x: T, a: seq<T>, b: seq<T>, all: seq<T>)
    requires StrictWeak(less, all) && x in all && Within(a, all) && Within(b, all)
    requires Sorted(less, a) && Sorted(less, b)
    ensures Class(less, x, Merge(less, a, b)) == Class(less, x, a) + Class(less, x, b)
    decreases |a| + |b|
  {
    hide StrictWeak, Sorted, Below;
    if a == [] || b == [] {
    } else {
      assert a[0] in all && b[0] in all;
      SortedHead(less, a);
      SortedHead(less, b);
      if !less(b[0], a[0]) {
        MergeClass(less, x, a[1..], b, all);
        ClassConcat(less, x, [a[0]], Merge(less, a[1..], b));
        ClassConcat(less, x, [a[0]], a[1..]);
        assert a == [a[0]] + a[1..];
      } else {
        MergeClass(less, x, a, b[1..], all);
        ClassConcat(less, x, [b[0]], Merge(less, a, b[1..]));
        ClassConcat(less, x, [b[0]], b[1..]);
        assert b == [b[0]] + b[1..];
        if Equiv(less, x, b[0]) {
          NoEquivalent(less, x, b[0], a, all);
        }
        assert Class(less, x, [b[0]]) + (Class(less, x, a) + Class(less, x, b[1..]))
            == Class(less, x, a) + (Class(less, x, [b[0]]) + Class(less, x, b[1..]));
      }
    }
  }

  // ---- runs ----

  /** The length of the first nondecreasing run. */
  ghost function RunEnd<T>(less: (T, T) -> bool, s: seq<T>): (n: nat)
    requires s != []
    ensures 1 <= n <= |s|
  {
    if |s| == 1 || less(s[1], s[0]) then 1 else 1 + RunEnd(less, s[1..])
  }

  /** The number of maximal nondecreasing runs. */
  ghost function Runs<T>(less: (T, T) -> bool, s: seq<T>): nat {
    if |s| <= 1 then |s| else (if less(s[1], s[0]) then 1 else 0) + Runs(less, s[1..])
  }

  lemma {:induction false} RunsAfter<T>(less: (T, T) -> bool, s: seq<T>)
    requires s != []
    ensures Runs(less, s) == 1 + Runs(less, s[RunEnd(less, s)..])
  {
    if |s| == 1 || less(s[1], s[0]) {
    } else {
      RunsAfter(less, s[1..]);
      var n := RunEnd(less, s[1..]);
      assert s[1..][n..] == s[n + 1..];
    }
  }

  lemma {:induction false} RunsConcat<T>(less: (T, T) -> bool, a: seq<T>, b: seq<T>)
    ensures Runs(less, a + b) <= Runs(less, a) + Runs(less, b)
  {
    if a == [] {
      assert a + b == b;
    } else if |a| == 1 {
      if b == [] {
        assert a + b == a;
      } else {
        assert (a + b)[1..] == b;
        RunsPositive(less, b);
      }
    } else {
      assert (a + b)[1..] == a[1..] + b;
      RunsConcat(less, a[1..], b);
    }
  }

  lemma {:induction false} RunsPositive<T>(less: (T, T) -> bool, s: seq<T>)
    requires s != []
    ensures Runs(less, s) >= 1
  {
    if |s| > 1 {
      RunsPositive(less, s[1..]);
    }
  }

  /** One run is a sorted sequence, and the other way round. */
  lemma {:induction false} OneRun<T>(less: (T, T) -> bool, s: seq<T>, all: seq<T>)
    requires StrictWeak(less, all) && Within(s, all)
    ensures Runs(less, s) <= 1 <==> Sorted(less, s)
  {
    if |s| > 1 {
      hide StrictWeak, Sorted, Below;
      OneRun(less, s[1..], all);
      SortedHead(less, s);
      SortedHead(less, s[1..]);
      RunsPositive(less, s[1..]);
      assert s[0] in all;
      if !less(s[1], s[0]) && Sorted(less, s[1..]) {
        BelowHead(less, s[0], s[1..], all);
      }
      BelowFirst(less, s[0], s[1..]);
    }
  }

  lemma BelowFirst<T>(less: (T, T) -> bool, x: T, s: seq<T>)
    requires s != []
    ensures Below(less, x, s) ==> !less(s[0], x)
  {
    assert s[0] in s;
  }

  lemma {:induction false} RunSorted<T>(less: (T, T) -> bool, s: seq<T>, all: seq<T>)
    requires s != [] && StrictWeak(less, all) && Within(s, all)
    ensures Sorted(less, s[..RunEnd(less, s)])
  {
    var n := RunEnd(less, s);
    if |s| == 1 || less(s[1], s[0]) {
    } else {
      hide StrictWeak, Sorted, Below;
      RunSorted(less, s[1..], all);
      var r := s[1..][..n - 1];
      assert s[..n] == [s[0]] + r && r[0] == s[1];
      SortedHead(less, r);
      BelowHead(less, s[0], r, all);
      SortedCons(less, s[0], r);
    }
  }

  // ---- passes ----

  /** One pass over the list: runs are merged in pairs. */
  ghost function Pass<T>(less: (T, T) -> bool, s: seq<T>): seq<T>
    decreases |s|
  {
    if s == [] then [] else
      var p := RunEnd(less, s);
      if p == |s| then s else
        var q := p + RunEnd(less, s[p..]);
        Merge(less, s[..p], s[p..q]) + Pass(less, s[q..])
  }

  /** The number of runs that a pass outputs. */
  ghost function Outputs(runs: nat): nat {
    (runs + 1) / 2
  }

  /** A pass over two or more runs outputs the merge of the first two, then goes on. */
  lemma PassUnfolds<T>(less: (T, T) -> bool, s: seq<T>, p: nat, q: nat)
    requires s != [] && p == RunEnd(less, s) && (p < |s| ==> q == p + RunEnd(less, s[p..]))
    ensures p == |s| ==> Pass(less, s) == s && Outputs(Runs(less, s)) == 1
    ensures p < |s| ==> q <= |s| && Pass(less, s) == Merge(less, s[..p], s[p..q]) + Pass(less, s[q..])
    ensures p < |s| ==> Outputs(Runs(less, s)) == 1 + Outputs(Runs(less, s[q..]))
  {
    hide RunEnd, Merge;
    RunsPair(less, s, p, q);
  }

  lemma RunsPair<T>(less: (T, T) -> bool, s: seq<T>, p: nat, q: nat)
    requires s != [] && p == RunEnd(less, s) && (p < |s| ==> q == p + RunEnd(less, s[p..]))
    ensures p == |s| ==> Runs(less, s) == 1
    ensures p < |s| ==> Runs(less, s) == 2 + Runs(less, s[q..])
  {
    hide RunEnd;
    RunsAfter(less, s);
    if p < |s| {
      RunsAfter(less, s[p..]);
      assert s[p..][q - p..] == s[q..];
    }
  }

  lemma {:induction false} PassElements<T>(less: (T, T) -> bool, s: seq<T>)
    ensures multiset(Pass(less, s)) == multiset(s)
    decreases |s|
  {
    hide RunEnd, Merge;
    if s != [] && RunEnd(less, s) < |s| {
      var p := RunEnd(less, s);
      var q := p + RunEnd(less, s[p..]);
      MergeElements(less, s[..p], s[p..q]);
      PassElements(less, s[q..]);
      assert s == s[..p] + s[p..q] + s[q..];
    }
  }

  /** Each pass at least halves the number of runs, so the passes end. */
  lemma {:induction false} PassRuns<T>(less: (T, T) -> bool, s: seq<T>, all: seq<T>)
    requires StrictWeak(less, all) && Within(s, all)
    ensures Runs(less, Pass(less, s)) <= Outputs(Runs(less, s))
    decreases |s|
  {
    hide StrictWeak, Sorted, Below, Within, RunEnd, Merge;
    if s != [] {
      RunsAfter(less, s);
      var p := RunEnd(less, s);
      if p < |s| {
        var q := p + RunEnd(less, s[p..]);
        RunsAfter(less, s[p..]);
        assert s[p..][q - p..] == s[q..];
        var m := Merge(less, s[..p], s[p..q]);
        PassPair(less, s, all);
        WithinSlice(s, p, q, all);
        WithinSlice(s, q, q, all);
        WithinSlice(s, 0, p, all);
        WithinMerge(less, s[..p], s[p..q], all);
        OneRun(less, m, all);
        PassRuns(less, s[q..], all);
        RunsConcat(less, m, Pass(less, s[q..]));
      }
    }
  }

  lemma PassPair<T>(less: (T, T) -> bool, s: seq<T>, all: seq<T>)
    requires s != [] && RunEnd(less, s) < |s| && StrictWeak(less, all) && Within(s, all)
    ensures var p := RunEnd(less, s);
            var q := p + RunEnd(less, s[p..]);
            && Sorted(less, s[..p]) && Sorted(less, s[p..q])
            && Sorted(less, Merge(less, s[..p], s[p..q]))
  {
    hide StrictWeak, Sorted, Within, RunEnd, Merge;
    var p := RunEnd(less, s);
    var q := p + RunEnd(less, s[p..]);
    WithinSlice(s, p, q, all);
    WithinSlice(s, 0, p, all);
    RunSorted(less, s, all);
    RunSorted(less, s[p..], all);
    assert s[p..][..q - p] == s[p..q];
    MergeSorted(less, s[..p], s[p..q], all);
  }

  lemma {:induction false} PassClass<T>(less: (T, T) -> bool, x: T, s: seq<T>, all: seq<T>)
    requires StrictWeak(less, all) && x in all && Within(s, all)
    ensures Class(less, x, Pass(less, s)) == Class(less, x, s)
    decreases |s|
  {
    hide StrictWeak, Sorted, Within, RunEnd, Merge;
    if s != [] && RunEnd(less, s) < |s| {
      var p := RunEnd(less, s);
      var q := p + RunEnd(less, s[p..]);
      WithinSlice(s, p, q, all);
      WithinSlice(s, q, q, all);
      WithinSlice(s, 0, p, all);
      PassPair(less, s, all);
      MergeClass(less, x, s[..p], s[p..q], all);
      PassClass(less, x, s[q..], all);
      ClassConcat(less, x, Merge(less, s[..p], s[p..q]), Pass(less, s[q..]));
      ClassConcat(less, x, s[..p], s[p..q]);
      ClassConcat(less, x, s[..q], s[q..]);
      assert s[..q] == s[..p] + s[p..q] && s == s[..q] + s[q..];
    }
  }

  lemma StrictWeakSame<T>(less: (T, T) -> bool, s: seq<T>, r: seq<T>)
    requires multiset(s) == multiset(r) && StrictWeak(less, s)
    ensures StrictWeak(less, r) && Within(r, s) && forall x :: x in s <==> x in r
  {
    MemberOfMultiset(s, r);
  }

  /** A pass keeps the elements and the order of equivalent ones. */
  lemma PassStable<T>(less: (T, T) -> bool, s: seq<T>)
    requires StrictWeak(less, s)
    ensures SameClasses(less, s, Pass(less, s)) && StrictWeak(less, Pass(less, s))
  {
    PassElements(less, s);
    StrictWeakSame(less, s, Pass(less, s));
    hide StrictWeak;
    forall x | x in s ensures Class(less, x, s) == Class(less, x, Pass(less, s)) {
      PassClass(less, x, s, s);
    }
  }

  // ---- the sort ----

  /** What list_sort promises: R is S sorted, and equivalent elements keep their order. */
  ghost predicate StableSort<T>(less: (T, T) -> bool, s: seq<T>, r: seq<T>) {
    Sorted(less, r) && SameClasses(less, s, r)
  }

  lemma SameClassesTrans<T>(less: (T, T) -> bool, s: seq<T>, t: seq<T>, u: seq<T>)
    requires SameClasses(less, s, t) && SameClasses(less, t, u)
    ensures SameClasses(less, s, u)
  {
    MemberOfMultiset(s, t);
  }

  /** A stable sort has only one answer. */
  lemma {:induction false} StableSortUnique<T>(less: (T, T) -> bool, s: seq<T>, a: seq<T>, b: seq<T>)
    requires StrictWeak(less, s) && StableSort(less, s, a) && StableSort(less, s, b)
    ensures a == b
  {
    StrictWeakSame(less, s, a);
    StrictWeakSame(less, s, b);
    hide StrictWeak;
    assert multiset(a) == multiset(b);
    assert forall x :: x in s ==> Class(less, x, a) == Class(less, x, b);
    SortedUnique(less, a, b, s);
  }

  lemma {:induction false} SortedUnique<T>(less: (T, T) -> bool, a: seq<T>, b: seq<T>, all: seq<T>)
    requires StrictWeak(less, all) && Within(a, all) && Within(b, all)
    requires Sorted(less, a) && Sorted(less, b) && multiset(a) == multiset(b)
    requires forall x :: x in all ==> Class(less, x, a) == Class(less, x, b)
    ensures a == b
    decreases |a|
  {
    MemberOfMultiset(a, b);
    if a != [] {
      hide StrictWeak, Sorted, Below, Within, Class;
      SortedHead(less, a);
      SortedHead(less, b);
      WithinAt(a, 0, all);
      HeadsEquivalent(less, a, b, all);
      HeadOfClass(less, a[0], a);
      HeadOfClass(less, a[0], b);
      TailElements(a, b);
      forall x | x in all ensures Class(less, x, a[1..]) == Class(less, x, b[1..]) {
        TailClass(less, x, a, b);
      }
      WithinSlice(a, 1, 1, all);
      WithinSlice(b, 1, 1, all);
      SortedUnique(less, a[1..], b[1..], all);
    }
  }

  lemma HeadOfClass<T>(less: (T, T) -> bool, x: T, s: seq<T>)
    requires s != [] && Equiv(less, x, s[0])
    ensures Class(less, x, s) != [] && Class(less, x, s)[0] == s[0]
  {
  }

  lemma TailElements<T>(a: seq<T>, b: seq<T>)
    requires a != [] && b != [] && a[0] == b[0] && multiset(a) == multiset(b)
    ensures multiset(a[1..]) == multiset(b[1..])
  {
    assert a == [a[0]] + a[1..] && b == [b[0]] + b[1..];
    assert multiset(a[1..]) == multiset(a) - multiset{a[0]} == multiset(b) - multiset{a[0]};
  }

  lemma WithinAt<T>(s: seq<T>, k: nat, all: seq<T>)
    requires k < |s| && Within(s, all)
    ensures s[k] in all
  {
  }

  lemma TailClass<T>(less: (T, T) -> bool, x: T, a: seq<T>, b: seq<T>)
    requires a != [] && b != [] && a[0] == b[0] && Class(less, x, a) == Class(less, x, b)
    ensures Class(less, x, a[1..]) == Class(less, x, b[1..])
  {
    var first := if Equiv(less, x, a[0]) then [a[0]] else [];
    assert Class(less, x, a) == first + Class(less, x, a[1..]);
    assert Class(less, x, b) == first + Class(less, x, b[1..]);
    assert Class(less, x, a)[|first|..] == Class(less, x, a[1..]);
    assert Class(less, x, b)[|first|..] == Class(less, x, b[1..]);
  }

  lemma HeadsEquivalent<T>(less: (T, T) -> bool, a: seq<T>, b: seq<T>, all: seq<T>)
    requires StrictWeak(less, all) && Within(a, all) && Within(b, all)
    requires a != [] && b != [] && Below(less, a[0], a[1..]) && Below(less, b[0], b[1..])
    requires forall x :: x in a <==> x in b
    ensures Equiv(less, a[0], b[0]) && Equiv(less, a[0], a[0])
  {
    assert a[0] in all && b[0] in all && b[0] in a && a[0] in b;
    assert a[0] != b[0] ==> a[0] in b[1..] && b[0] in a[1..];
  }

  // ---- insertion in order ----

  /** Putting X before the first element it is less than adds it, stably, to a sorted sequence. */
  lemma InsertedSorted<T>(less: (T, T) -> bool, s: seq<T>, x: T, p: nat)
    requires Sorted(less, s) && StrictWeak(less, s + [x]) && p <= |s|
    requires (forall k :: 0 <= k < p ==> !less(x, s[k])) && (p < |s| ==> less(x, s[p]))
    ensures StableSort(less, s + [x], s[..p] + [x] + s[p..])
  {
    hide StrictWeak, Sorted, Class;
    var r, all := s[..p] + [x] + s[p..], s + [x];
    assert Within(s, all) && x in all by {
      assert all[|s|] == x;
    }
    InsertedOrder(less, s, x, p, all);
    assert multiset(r) == multiset(all) by {
      assert s == s[..p] + s[p..];
    }
    hide Within;
    forall y | y in all ensures Class(less, y, all) == Class(less, y, r) {
      InsertedClass(less, s, x, p, y, all);
    }
  }

  lemma InsertedOrder<T>(less: (T, T) -> bool, s: seq<T>, x: T, p: nat, all: seq<T>)
    requires Sorted(less, s) && StrictWeak(less, all) && Within(s, all) && x in all && p <= |s|
    requires (forall k :: 0 <= k < p ==> !less(x, s[k])) && (p < |s| ==> less(x, s[p]))
    ensures Sorted(less, s[..p] + [x] + s[p..])
    ensures forall k :: p <= k < |s| ==> less(x, s[k])
  {
    var r := s[..p] + [x] + s[p..];
    forall k | p <= k < |s| ensures less(x, s[k]) && !less(s[k], x) {
      LessThrough(less, x, s[p], s[k], all);
    }
    hide StrictWeak, Within;
    forall i, j | 0 <= i < j < |r| ensures !less(r[j], r[i]) {
      assert r[i] == if i < p then s[i] else if i == p then x else s[i - 1];
      assert r[j] == if j < p then s[j] else if j == p then x else s[j - 1];
    }
  }

  lemma LessThrough<T>(less: (T, T) -> bool, x: T, y: T, z: T, all: seq<T>)
    requires StrictWeak(less, all) && x in all && y in all && z in all
    requires less(x, y) && !less(z, y)
    ensures less(x, z) && !less(z, x)
  {
  }

  /** An element equivalent to X is not equivalent to one above X. */
  lemma NotEquivalent<T>(less: (T, T) -> bool, x: T, y: T, z: T, all: seq<T>)
    requires StrictWeak(less, all) && x in all && y in all && z in all
    requires Equiv(less, y, x) && less(x, z)
    ensures !Equiv(less, y, z)
  {
  }

  lemma InsertedClass<T>(less: (T, T) -> bool, s: seq<T>, x: T, p: nat, y: T, all: seq<T>)
    requires p <= |s| && StrictWeak(less, all) && Within(s, all) && x in all && y in all
    requires forall k :: p <= k < |s| ==> less(x, s[k])
    ensures Class(less, y, s + [x]) == Class(less, y, s[..p] + [x] + s[p..])
  {
    hide StrictWeak, Within, Class;
    ClassConcat(less, y, s, [x]);
    ClassConcat(less, y, s[..p], s[p..]);
    ClassConcat(less, y, s[..p] + [x], s[p..]);
    ClassConcat(less, y, s[..p], [x]);
    assert s == s[..p] + s[p..];
    if Equiv(less, y, x) {
      forall z | z in s[p..] ensures !Equiv(less, y, z) {
        var k :| p <= k < |s| && s[k] == z;
        WithinAt(s, k, all);
        NotEquivalent(less, x, y, z, all);
      }
      ClassEmpty(less, y, s[p..]);
    } else {
      ClassEmpty(less, y, [x]);
    }
  }
}
