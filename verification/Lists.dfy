/** The kernel's doubly linked lists. */
module Lists {
  import opened Basics
  import opened MergeSort

  /** A list element; it is embedded in whatever is being listed. */
  class Elem {
    var prev: Elem?
    var next: Elem?
    constructor ()
      ensures prev == null && next == null
    {
      prev := null;
      next := null;
    }
  }

  ghost predicate Distinct(c: seq<Elem>) {
    forall i, j :: 0 <= i < j < |c| ==> c[i] != c[j]
  }

  /** Neighbours in C[I..J] point to each other. */
  ghost predicate Linked(c: seq<Elem>, i: nat, j: nat)
    requires i <= j <= |c|
    reads c
  {
    forall k {:trigger c[k].next} :: i <= k < j - 1 ==> c[k].next == c[k + 1] && c[k + 1].prev == c[k]
  }

  /** C with the adjacent segments [I..J] and [J..K] exchanged. */
  ghost function Exchanged<T>(c: seq<T>, i: nat, j: nat, k: nat): seq<T>
    requires i <= j <= k <= |c|
  {
    c[..i] + c[j..k] + c[i..j] + c[k..]
  }

  /** The links that put (F..L] after position B. */
  ghost predicate Rejoined(c: seq<Elem>, b: nat, f: nat, l: nat)
    requires b < |c| - 1 && f < |c| - 1 && l < |c| - 1
    reads c
  {
    && c[b].next == c[f + 1] && c[f + 1].prev == c[b]
    && c[l].next == c[b + 1] && c[b + 1].prev == c[l]
    && c[f].next == c[l + 1] && c[l + 1].prev == c[f]
  }

  lemma ExchangedLinked(c: seq<Elem>, i: nat, j: nat, k: nat)
    requires 0 < i < j <= k < |c|
    requires j == k ==> Linked(c, 0, |c|)
    requires j < k ==> Cut(c, i, j, k) && (Rejoined(c, i - 1, j - 1, k - 1) || Rejoined(c, k - 1, i - 1, j - 1))
    ensures Linked(Exchanged(c, i, j, k), 0, |c|)
  {
    var r := Exchanged(c, i, j, k);
    if j == k {
      assert r == c;
      return;
    }
    forall m {:trigger r[m].next} | 0 <= m < |c| - 1 ensures r[m].next == r[m + 1] && r[m + 1].prev == r[m] {
      if m < i {
        assert r[m] == c[m];
        assert r[m + 1] == if m == i - 1 then c[j] else c[m + 1];
      } else if m < i + (k - j) {
        assert r[m] == c[m - i + j];
        assert r[m + 1] == if m == i + (k - j) - 1 then c[i] else c[m + 1 - i + j];
      } else if m < k {
        assert r[m] == c[m - (k - j)];
        assert r[m + 1] == if m == k - 1 then c[k] else c[m + 1 - (k - j)];
      } else {
        assert r[m] == c[m] && r[m + 1] == c[m + 1];
      }
    }
  }

  lemma ExchangedDistinct(c: seq<Elem>, i: nat, j: nat, k: nat)
    requires i <= j <= k <= |c| && Distinct(c)
    ensures Distinct(Exchanged(c, i, j, k)) && |Exchanged(c, i, j, k)| == |c|
  {
    var r := Exchanged(c, i, j, k);
    forall m, n | 0 <= m < n < |r| ensures r[m] != r[n] {
      var m' := if m < i || m >= k then m else if m < i + (k - j) then m - i + j else m - (k - j);
      var n' := if n < i || n >= k then n else if n < i + (k - j) then n - i + j else n - (k - j);
      assert r[m] == c[m'] && r[n] == c[n'] && m' != n';
    }
  }

  lemma ExchangedChain(head: Elem, nodes: seq<Elem>, tail: Elem, b: nat, f: nat, l: nat)
    requires b <= f <= l <= |nodes|
    ensures [head] + Exchanged(nodes, b, f, l) + [tail] == Exchanged([head] + nodes + [tail], b + 1, f + 1, l + 1)
    ensures Within(Exchanged(nodes, b, f, l), nodes)
  {
    hide Within;
    var c := [head] + nodes + [tail];
    assert c[..b + 1] == [head] + nodes[..b];
    assert c[f + 1..l + 1] == nodes[f..l];
    assert c[b + 1..f + 1] == nodes[b..f];
    assert c[l + 1..] == nodes[l..] + [tail];
    ExchangedWithin(nodes, b, f, l);
  }

  lemma ExchangedWithin<T>(s: seq<T>, i: nat, j: nat, k: nat)
    requires i <= j <= k <= |s|
    ensures Within(Exchanged(s, i, j, k), s)
  {
  }

  /** T is S with the merge of [I..J] and [J..K] under way: it is done up to X, and [X..Y]
      and [Y..K] are still to be merged. */
  ghost predicate Merging<T>(less: (T, T) -> bool, s: seq<T>, i: nat, j: nat, k: nat, t: seq<T>, x: nat, y: nat) {
    && i <= j <= k <= |s| == |t| && i <= x <= y <= k && t[k..] == s[k..]
    && t[..x] + Merge(less, t[x..y], t[y..k]) == s[..i] + Merge(less, s[i..j], s[j..k])
    && Within(t, s)
  }

  lemma MergingBegins<T>(less: (T, T) -> bool, s: seq<T>, i: nat, j: nat, k: nat)
    requires i <= j <= k <= |s|
    ensures Merging(less, s, i, j, k, s, i, j)
  {
  }

  lemma MergingEnds<T>(less: (T, T) -> bool, s: seq<T>, i: nat, j: nat, k: nat, t: seq<T>, x: nat, y: nat)
    requires Merging(less, s, i, j, k, t, x, y) && (x == y || y == k)
    ensures t == s[..i] + Merge(less, s[i..j], s[j..k]) + s[k..]
  {
    assert t == t[..x] + t[x..y] + t[y..k] + t[k..];
    assert t[..x] + Merge(less, t[x..y], t[y..k]) == t[..x] + t[x..y] + t[y..k];
  }

  /** The positions after the node at Y has moved to X. */
  lemma MovedOne(head: Elem, s: seq<Elem>, tail: Elem, x: nat, y: nat)
    requires x < y < |s|
    ensures var r := Exchanged(s, x, y, y + 1);
            var c, d := [head] + s + [tail], [head] + r + [tail];
            && |r| == |s| && d[x + 2] == c[x + 1] && (forall m :: y + 1 < m < |c| ==> d[m] == c[m])
            && Within(r, s)
  {
    ExchangedChain(head, s, tail, x, y, y + 1);
  }

  /** The head of the first run stays where it is. */
  lemma MergingKeeps<T>(less: (T, T) -> bool, s: seq<T>, i: nat, j: nat, k: nat, t: seq<T>, x: nat, y: nat)
    requires Merging(less, s, i, j, k, t, x, y) && x < y < k && !less(t[y], t[x])
    ensures Merging(less, s, i, j, k, t, x + 1, y)
  {
    assert t[x..y][1..] == t[x + 1..y];
    assert t[..x + 1] == t[..x] + [t[x]];
  }

  /** The head of the second run moves before the first run. */
  lemma MergingMoves<T>(less: (T, T) -> bool, s: seq<T>, i: nat, j: nat, k: nat, t: seq<T>, x: nat, y: nat)
    requires Merging(less, s, i, j, k, t, x, y) && x < y < k && less(t[y], t[x])
    ensures Merging(less, s, i, j, k, Exchanged(t, x, y, y + 1), x + 1, y + 1)
    ensures Exchanged(t, x, y, y + 1)[x + 1] == t[x]
  {
    hide Within;
    var r := Exchanged(t, x, y, y + 1);
    ExchangedWithin(t, x, y, y + 1);
    WithinTrans(r, t, s);
    assert t[y..k][1..] == t[y + 1..k];
    assert r[..x + 1] == t[..x] + [t[y]] && r[x + 1..y + 1] == t[x..y] && r[y + 1..k] == t[y + 1..k] && r[k..] == t[k..];
  }

  lemma RunGoesOn<T>(less: (T, T) -> bool, s: seq<T>, m: nat, k: nat)
    requires 0 < m < k <= |s| && !less(s[m], s[m - 1])
    ensures RunEnd(less, s[m - 1..k]) == 1 + RunEnd(less, s[m..k])
  {
    assert s[m - 1..k][1..] == s[m..k];
  }

  lemma RunStops<T>(less: (T, T) -> bool, s: seq<T>, m: nat, k: nat)
    requires 0 < m <= k <= |s|
    ensures m == k || less(s[m], s[m - 1]) ==> RunEnd(less, s[m - 1..k]) == 1
  {
  }

  /** T is S with a pass under way: CNT runs have been output, up to X. */
  ghost predicate Passing<T>(less: (T, T) -> bool, s: seq<T>, t: seq<T>, x: nat, cnt: nat) {
    && |s| == |t| && x <= |s| && t[x..] == s[x..] && Within(t, s)
    && t[..x] + Pass(less, s[x..]) == Pass(less, s)
    && cnt + Outputs(Runs(less, s[x..])) == Outputs(Runs(less, s))
  }

  lemma PassingBegins<T>(less: (T, T) -> bool, s: seq<T>)
    ensures Passing(less, s, s, 0, 0)
  {
    assert s[0..] == s;
  }

  lemma PassingEnds<T>(less: (T, T) -> bool, s: seq<T>, t: seq<T>, cnt: nat)
    requires Passing(less, s, t, |s|, cnt)
    ensures t == Pass(less, s) && cnt == Outputs(Runs(less, s))
  {
  }

  lemma PassingLast<T>(less: (T, T) -> bool, s: seq<T>, t: seq<T>, x: nat, cnt: nat)
    requires Passing(less, s, t, x, cnt) && x < |s| && RunEnd(less, t[x..]) == |t| - x
    ensures t == Pass(less, s) && cnt + 1 == Outputs(Runs(less, s))
  {
    hide RunEnd, Pass, Runs, Outputs, Within;
    PassUnfolds(less, s[x..], |s| - x, 0);
    assert t == t[..x] + t[x..];
  }

  lemma PassingPair<T>(less: (T, T) -> bool, s: seq<T>, t: seq<T>, x: nat, cnt: nat)
    requires Passing(less, s, t, x, cnt) && x < |s| && RunEnd(less, t[x..]) < |t| - x
    ensures var p := x + RunEnd(less, t[x..]);
            var q := p + RunEnd(less, t[p..]);
            var r := t[..x] + Merge(less, t[x..p], t[p..q]) + t[q..];
            Passing(less, s, r, q, cnt + 1) && Within(r, s)
  {
    hide Merge, Within, RunEnd, Pass, Runs, Outputs;
    var u := t[x..];
    var p := RunEnd(less, u);
    var q := p + RunEnd(less, u[p..]);
    PassUnfolds(less, u, p, q);
    Slices(t, x, p, q);
    MergeElements(less, u[..p], u[p..q]);
    var m := Merge(less, u[..p], u[p..q]);
    var r := t[..x] + m + t[x + q..];
    assert r[..x + q] == t[..x] + m && r[x + q..] == t[x + q..];
    PairWithin(less, s, t, x, x + p, x + q);
  }

  lemma Slices<T>(t: seq<T>, x: nat, p: nat, q: nat)
    requires p <= q && x + q <= |t|
    ensures var u := t[x..];
            u[p..] == t[x + p..] && u[..p] == t[x..x + p] && u[p..q] == t[x + p..x + q] && u[q..] == t[x + q..]
  {
  }

  lemma PairWithin<T>(less: (T, T) -> bool, s: seq<T>, t: seq<T>, x: nat, p: nat, q: nat)
    requires x <= p <= q <= |t| && Within(t, s)
    ensures Within(t[..x] + Merge(less, t[x..p], t[p..q]) + t[q..], s)
  {
    hide Merge, Within;
    WithinSlice(t, x, p, s);
    WithinSlice(t, p, q, s);
    WithinSlice(t, q, q, s);
    WithinSlice(t, 0, x, s);
    WithinMerge(less, t[x..p], t[p..q], s);
    WithinConcat(t[..x], Merge(less, t[x..p], t[p..q]), t[q..], s);
  }

  lemma WithinSelf<T>(s: seq<T>)
    ensures Within(s, s)
  {
  }

  lemma WithinTrans<T>(a: seq<T>, b: seq<T>, c: seq<T>)
    requires Within(a, b) && Within(b, c)
    ensures Within(a, c)
  {
  }

  lemma WithinConcat<T>(a: seq<T>, b: seq<T>, c: seq<T>, all: seq<T>)
    requires Within(a, all) && Within(b, all) && Within(c, all)
    ensures Within(a + b + c, all)
  {
  }

  lemma SameElements<T>(less: (T, T) -> bool, s: seq<T>, t: seq<T>)
    requires SameClasses(less, s, t)
    ensures Within(t, s)
  {
    MemberOfMultiset(s, t);
  }

  lemma ExchangedEmpty<T>(s: seq<T>, i: nat, j: nat, k: nat)
    requires i <= j <= k <= |s| && (i == j || j == k)
    ensures Exchanged(s, i, j, k) == s
  {
    assert s == s[..i] + s[i..k] + s[k..];
  }

  lemma OnePosition(c: seq<Elem>, i: nat, j: nat)
    requires i < |c| && j < |c| && Distinct(c)
    ensures c[i] == c[j] <==> i == j
  {
  }

  /** Neighbours of a position. */
  lemma Neighbours(c: seq<Elem>, k: nat)
    requires k + 1 < |c| && Linked(c, 0, |c|)
    ensures c[k].next == c[k + 1] && c[k + 1].prev == c[k]
  {
  }

  /** All neighbours point to each other, except across the cuts before I, J and K. */
  ghost predicate Cut(c: seq<Elem>, i: nat, j: nat, k: nat)
    reads c
  {
    forall m {:trigger c[m].next} :: 0 <= m < |c| - 1 && m + 1 != i && m + 1 != j && m + 1 != k ==>
      c[m].next == c[m + 1] && c[m + 1].prev == c[m]
  }

  lemma InsertedLinked(c: seq<Elem>, i: nat, elem: Elem)
    requires 0 < i < |c| && elem !in c && Distinct(c)
    requires forall m {:trigger c[m].next} :: 0 <= m < |c| - 1 && m + 1 != i ==> c[m].next == c[m + 1] && c[m + 1].prev == c[m]
    requires c[i - 1].next == elem && elem.prev == c[i - 1] && elem.next == c[i] && c[i].prev == elem
    ensures var r := c[..i] + [elem] + c[i..]; Distinct(r) && Linked(r, 0, |r|)
  {
    var r := c[..i] + [elem] + c[i..];
    forall m {:trigger r[m].next} | 0 <= m < |r| - 1 ensures r[m].next == r[m + 1] && r[m + 1].prev == r[m] {
      if m < i - 1 {
        assert r[m] == c[m] && r[m + 1] == c[m + 1];
      } else if m > i {
        assert r[m] == c[m - 1] && r[m + 1] == c[m];
      }
    }
  }

  lemma RemovedLinked(c: seq<Elem>, i: nat)
    requires 0 < i < |c| - 1 && Distinct(c)
    requires forall m {:trigger c[m].next} :: 0 <= m < |c| - 1 && m + 1 != i && m != i ==> c[m].next == c[m + 1] && c[m + 1].prev == c[m]
    requires c[i - 1].next == c[i + 1] && c[i + 1].prev == c[i - 1]
    ensures var r := c[..i] + c[i + 1..]; Distinct(r) && Linked(r, 0, |r|)
  {
    var r := c[..i] + c[i + 1..];
    forall m {:trigger r[m].next} | 0 <= m < |r| - 1 ensures r[m].next == r[m + 1] && r[m + 1].prev == r[m] {
      if m < i - 1 {
        assert r[m] == c[m] && r[m + 1] == c[m + 1];
      } else if m >= i {
        assert r[m] == c[m + 1] && r[m + 1] == c[m + 2];
      }
    }
  }

  lemma ReversedShort<T>(s: seq<T>)
    requires |s| <= 1
    ensures Reversed(s) == s
  {
  }

  /** The pointers of the interior nodes before position T have been exchanged. */
  ghost predicate Turning(c: seq<Elem>, t: nat)
    requires |c| >= 2
    reads c
  {
    && c[0].next == c[1] && c[|c| - 1].prev == c[|c| - 2]
    && (forall k {:trigger c[k].next} {:trigger c[k].prev} :: 1 <= k < |c| - 1 ==>
          if k < t then c[k].next == c[k - 1] && c[k].prev == c[k + 1]
          else c[k].next == c[k + 1] && c[k].prev == c[k - 1])
  }

  lemma TurningBegins(c: seq<Elem>)
    requires |c| >= 2 && Linked(c, 0, |c|)
    ensures Turning(c, 1)
  {
    Neighbours(c, 0);
    Neighbours(c, |c| - 2);
    forall k | 1 <= k < |c| - 1 ensures c[k].next == c[k + 1] && c[k].prev == c[k - 1] {
      Neighbours(c, k);
      Neighbours(c, k - 1);
    }
  }

  /** D is the chain C with its interior turned round. */
  ghost predicate Turned(c: seq<Elem>, d: seq<Elem>) {
    && |c| == |d| >= 3 && d[0] == c[0] && d[|c| - 1] == c[|c| - 1]
    && forall k :: 1 <= k < |c| - 1 ==> d[k] == c[|c| - 1 - k]
  }

  lemma TurnedChain(head: Elem, nodes: seq<Elem>, tail: Elem)
    requires nodes != []
    ensures Turned([head] + nodes + [tail], [head] + Reversed(nodes) + [tail])
    ensures Within(Reversed(nodes), nodes)
  {
  }

  lemma TurnedLinked(c: seq<Elem>, d: seq<Elem>)
    requires Turned(c, d) && Distinct(c)
    requires forall k :: 2 <= k < |c| - 1 ==> c[k].next == c[k - 1]
    requires forall k :: 1 <= k < |c| - 2 ==> c[k].prev == c[k + 1]
    requires c[0].next == c[|c| - 2] && c[|c| - 2].prev == c[0]
    requires c[|c| - 1].prev == c[1] && c[1].next == c[|c| - 1]
    ensures Distinct(d) && Linked(d, 0, |d|)
  {
    var n := |c| - 2;
    forall i, j | 0 <= i < j < |d| ensures d[i] != d[j] {
      var i' := if 1 <= i <= n then n + 1 - i else i;
      var j' := if 1 <= j <= n then n + 1 - j else j;
      assert d[i] == c[i'] && d[j] == c[j'] && i' != j';
    }
    forall m {:trigger d[m].next} | 0 <= m < |d| - 1 ensures d[m].next == d[m + 1] && d[m + 1].prev == d[m] {
      if 1 <= m < n {
        assert d[m] == c[n + 1 - m] && d[m + 1] == c[n - m];
      }
    }
  }

  class List {
    const head: Elem
    const tail: Elem
    ghost var nodes: seq<Elem>

    ghost function Chain(): seq<Elem>
      reads this
    {
      [head] + nodes + [tail]
    }

    ghost predicate Valid()
      reads this, head, tail, nodes
    {
      && Distinct(Chain())
      && Linked(Chain(), 0, |Chain()|)
      && head.prev == null && tail.next == null
    }

    /** list_init. */
    constructor ()
      ensures Valid() && nodes == [] && fresh(head) && fresh(tail)
    {
      var h := new Elem();
      var t := new Elem();
      h.next := t;
      t.prev := h;
      head, tail, nodes := h, t, [];
    }

    /** list_splice, for FIRST..LAST and BEFORE in the same list, BEFORE outside FIRST..LAST. */
    method Splice(before: Elem, first: Elem, last: Elem, ghost b: nat, ghost f: nat, ghost l: nat)
      requires Valid() && f <= l <= |nodes| && b <= |nodes| && (b < f || l <= b)
      requires before == Chain()[b + 1] && first == Chain()[f + 1] && last == Chain()[l + 1]
      modifies this`nodes, head, tail, nodes
      ensures Valid() && nodes == if b < f then Exchanged(old(nodes), b, f, l) else Exchanged(old(nodes), f, l, b)
    {
      hide Exchanged, Distinct, Linked, Cut, Rejoined;
      OnePosition(Chain(), f + 1, l + 1);
      if first == last {
        ExchangedEmpty(nodes, if b < f then b else f, f, if b < f then f else b);
      } else {
        ghost var c := Chain();
        Neighbours(c, l);
        Relink(before, first, last.prev, c, b, f, l);
        ghost var i, j, k := if b < f then b else f, if b < f then f else l, if b < f then l else b;
        ExchangedLinked(c, i + 1, j + 1, k + 1);
        ExchangedDistinct(c, i + 1, j + 1, k + 1);
        ExchangedChain(head, nodes, tail, i, j, k);
        nodes := Exchanged(nodes, i, j, k);
      }
    }

    /** The pointer updates of list_splice, on a nonempty range. */
    static method Relink(before: Elem, first: Elem, last: Elem, ghost c: seq<Elem>, ghost b: nat, ghost f: nat, ghost l: nat)
      requires Distinct(c) && Linked(c, 0, |c|)
      requires f < l < |c| - 1 && b < |c| - 1 && (b < f || l <= b)
      requires before == c[b + 1] && first == c[f + 1] && last == c[l]
      modifies c
      ensures c[0].prev == old(c[0].prev) && c[|c| - 1].next == old(c[|c| - 1].next)
      ensures if l == b then Linked(c, 0, |c|) else
                (if b < f then Cut(c, b + 1, f + 1, l + 1) else Cut(c, f + 1, l + 1, b + 1)) && Rejoined(c, b, f, l)
    {
      Neighbours(c, l);
      Neighbours(c, f);
      Neighbours(c, b);
      first.prev.next := last.next;
      last.next.prev := first.prev;
      first.prev := before.prev;
      last.next := before;
      before.prev.next := first;
      before.prev := last;
      forall m | 0 <= m < |c| - 1 && m != b && m != f && m != l
        ensures c[m].next == c[m + 1] && c[m + 1].prev == c[m]
      {
        assert old(c[m].next) == c[m + 1];
      }
    }

    /** The pointer updates of list_insert. */
    static method InsertLinks(before: Elem, elem: Elem, ghost c: seq<Elem>, ghost i: nat)
      requires Distinct(c) && Linked(c, 0, |c|) && i < |c| - 1 && before == c[i + 1] && elem !in c
      modifies c, elem
      ensures c[0].prev == old(c[0].prev) && c[|c| - 1].next == old(c[|c| - 1].next)
      ensures var r := c[..i + 1] + [elem] + c[i + 1..]; Distinct(r) && Linked(r, 0, |r|)
    {
      Neighbours(c, i);
      elem.prev := before.prev;
      elem.next := before;
      before.prev.next := elem;
      before.prev := elem;
      forall m | 0 <= m < |c| - 1 && m != i ensures c[m].next == c[m + 1] && c[m + 1].prev == c[m] {
        assert old(c[m].next) == c[m + 1];
      }
      hide Linked;
      InsertedLinked(c, i + 1, elem);
    }

    /** list_insert: ELEM goes before the node at position I. */
    method Insert(before: Elem, elem: Elem, ghost i: nat)
      requires Valid() && i <= |nodes| && before == Chain()[i + 1] && elem !in Chain()
      modifies this`nodes, head, tail, nodes, elem
      ensures Valid() && nodes == old(nodes)[..i] + [elem] + old(nodes)[i..]
    {
      hide Distinct, Linked;
      ghost var c := Chain();
      InsertLinks(before, elem, c, i);
      nodes := nodes[..i] + [elem] + nodes[i..];
      assert Chain() == c[..i + 1] + [elem] + c[i + 1..];
    }

    /** list_remove: takes out the node at position I. */
    method Remove(elem: Elem, ghost i: nat) returns (next: Elem)
      requires Valid() && i < |nodes| && elem == nodes[i]
      modifies this`nodes, head, tail, nodes
      ensures Valid() && nodes == old(nodes)[..i] + old(nodes)[i + 1..] && next == Chain()[i + 1]
    {
      ghost var c := Chain();
      assert elem == c[i + 1];
      Neighbours(c, i);
      Neighbours(c, i + 1);
      elem.prev.next := elem.next;
      elem.next.prev := elem.prev;
      forall m | 0 <= m < |c| - 1 && m != i && m != i + 1 ensures c[m].next == c[m + 1] && c[m + 1].prev == c[m] {
        assert old(c[m].next) == c[m + 1];
      }
      next := elem.next;
      RemovedLinked(c, i + 1);
      nodes := nodes[..i] + nodes[i + 1..];
      assert Chain() == c[..i + 1] + c[i + 2..];
    }

    /** Exchanges the pointers of the node at position T. */
    static method TurnOne(e: Elem, ghost c: seq<Elem>, ghost t: nat)
      requires Distinct(c) && |c| >= 2 && 1 <= t < |c| - 1 && e == c[t] && Turning(c, t)
      modifies e
      ensures Turning(c, t + 1) && e.prev == c[t + 1]
    {
      forall k | 0 <= k < |c| ensures c[k] == e <==> k == t {
        OnePosition(c, k, t);
      }
      hide Distinct;
      assert c[t].next == c[t + 1];
      e.prev, e.next := e.next, e.prev;
    }

    /** The loop of list_reverse: every interior node's pointers are exchanged. */
    method TurnLinks(ghost c: seq<Elem>)
      requires Distinct(c) && Linked(c, 0, |c|) && |c| >= 2 && c[0] == head && c[|c| - 1] == tail
      modifies c
      ensures Turning(c, |c| - 1)
      ensures head.prev == old(head.prev) && tail.next == old(tail.next)
    {
      hide Distinct, Linked, Turning;
      TurningBegins(c);
      Neighbours(c, 0);
      var e: Elem := head.next;
      ghost var t := 1;
      OnePosition(c, t, |c| - 1);
      OnePosition(c, t, 0);
      while e != tail
        invariant 1 <= t <= |c| - 1 && e == c[t] && Turning(c, t) && (e == tail <==> t == |c| - 1) && e != head
        invariant head.prev == old(head.prev) && tail.next == old(tail.next)
        decreases |c| - t
      {
        TurnOne(e, c, t);
        e := e.prev;
        t := t + 1;
        OnePosition(c, t, |c| - 1);
        OnePosition(c, t, 0);
      }
    }

    /** The two swaps that end list_reverse, on the chain C; D is the chain they make. */
    method JoinEnds(ghost c: seq<Elem>, ghost d: seq<Elem>)
      requires Distinct(c) && Turned(c, d) && c[0] == head && c[|c| - 1] == tail && Turning(c, |c| - 1)
      modifies c
      ensures head.prev == old(head.prev) && tail.next == old(tail.next)
      ensures Distinct(d) && Linked(d, 0, |d|)
    {
      assert c[1].next == head && c[|c| - 2].prev == tail;
      head.next, tail.prev := tail.prev, head.next;
      var first: Elem, last: Elem := head.next, tail.prev;
      first.prev, last.next := last.next, first.prev;
      forall k | 1 <= k < |c| - 1
        ensures (k >= 2 ==> c[k].next == c[k - 1]) && (k < |c| - 2 ==> c[k].prev == c[k + 1])
      {
        assert old(c[k].next == c[k - 1] && c[k].prev == c[k + 1]);
        OnePosition(c, k, 1);
        OnePosition(c, k, |c| - 2);
      }
      TurnedLinked(c, d);
    }

    /** list_reverse. */
    method Reverse()
      requires Valid()
      modifies this`nodes, head, tail, nodes
      ensures Valid() && nodes == Reversed(old(nodes))
    {
      hide Turned, Turning, Reversed, Linked, Distinct, Within;
      ghost var c := Chain();
      Neighbours(c, 0);
      OnePosition(c, 1, |c| - 1);
      if head.next != tail {
        TurnedChain(head, nodes, tail);
        TurnLinks(c);
        JoinEnds(c, [head] + Reversed(nodes) + [tail]);
        nodes := Reversed(nodes);
      } else {
        ReversedShort(nodes);
      }
    }

    lemma Position(i: nat, j: nat)
      requires Valid() && i < |Chain()| && j < |Chain()|
      ensures Chain()[i] == Chain()[j] <==> i == j
    {
    }

    /** list_next of the element at chain position K. */
    method Next(e: Elem, ghost k: nat) returns (r: Elem)
      requires Valid() && k < |Chain()| - 1 && e == Chain()[k]
      ensures r == Chain()[k + 1]
    {
      Neighbours(Chain(), k);
      r := e.next;
    }

    /** list_prev of the element at chain position K. */
    method Prev(e: Elem, ghost k: nat) returns (r: Elem)
      requires Valid() && 0 < k < |Chain()| && e == Chain()[k]
      ensures r == Chain()[k - 1]
    {
      Neighbours(Chain(), k - 1);
      r := e.prev;
    }

    /** find_end_of_run, from the node at I, ending not after position K. */
    method FindEndOfRun(a: Elem, b: Elem, less: (Elem, Elem) -> bool, ghost i: nat, ghost k: nat) returns (e: Elem)
      requires Valid() && i < k <= |nodes| && a == nodes[i] && b == Chain()[k + 1]
      ensures e == Chain()[i + RunEnd(less, nodes[i..k]) + 1]
    {
      hide Valid, RunEnd;
      ghost var c, m := Chain(), i + 1;
      e := Next(a, i + 1);
      var p := a;
      while e != b && !less(e, p)
        invariant i < m <= k && e == c[m + 1] && p == nodes[m - 1]
        invariant RunEnd(less, nodes[i..k]) == m - 1 - i + RunEnd(less, nodes[m - 1..k])
        decreases k - m
      {
        Position(m + 1, k + 1);
        RunGoesOn(less, nodes, m, k);
        p := e;
        e := Next(e, m + 1);
        m := m + 1;
      }
      Position(m + 1, k + 1);
      RunStops(less, nodes, m, k);
    }

    /** Moves the node at Y, the head of the second run, before A at X; returns its successor. */
    method MoveOne(a: Elem, b: Elem, ghost x: nat, ghost y: nat) returns (r: Elem)
      requires Valid() && x < y < |nodes| && a == Chain()[x + 1] && b == Chain()[y + 1]
      modifies this`nodes, head, tail, nodes
      ensures Valid() && nodes == Exchanged(old(nodes), x, y, y + 1) && |nodes| == |old(nodes)|
      ensures r == Chain()[y + 2] && a == Chain()[x + 2]
      ensures forall m :: y + 1 < m < |Chain()| ==> Chain()[m] == old(Chain())[m]
      ensures Within(nodes, old(nodes))
    {
      hide Exchanged, Distinct, Linked;
      r := Next(b, y + 1);
      var last := Prev(r, y + 2);
      MovedOne(head, nodes, tail, x, y);
      Splice(a, last, r, x, y, y + 1);
    }

    /** One turn of the loop of inplace_merge. */
    method MergeTurn(a: Elem, b: Elem, less: (Elem, Elem) -> bool, ghost s: seq<Elem>, ghost i: nat, ghost j: nat, ghost k: nat,
                     ghost x: nat, ghost y: nat)
      returns (a0: Elem, a1b0: Elem, ghost x': nat, ghost y': nat)
      requires Valid() && i <= x < y < k <= |nodes| == |s| && Within(nodes, s) && Merging(less, s, i, j, k, nodes, x, y)
      requires a == Chain()[x + 1] && b == Chain()[y + 1]
      modifies this`nodes, head, tail, nodes
      ensures Valid() && |nodes| == |old(nodes)| && Within(nodes, old(nodes)) && Merging(less, s, i, j, k, nodes, x', y')
      ensures x' == x + 1 && y <= y' <= k
      ensures a0 == Chain()[x' + 1] && a1b0 == Chain()[y' + 1] && Chain()[k + 1] == old(Chain())[k + 1]
    {
      hide Exchanged, Valid, Merging, Merge, Within;
      a0, a1b0, x', y' := a, b, x + 1, y;
      WithinSelf(nodes);
      if !less(b, a) {
        MergingKeeps(less, s, i, j, k, nodes, x, y);
        a0 := Next(a, x + 1);
      } else {
        MergingMoves(less, s, i, j, k, nodes, x, y);
        a1b0 := MoveOne(a, b, x, y);
        y' := y + 1;
      }
    }

    /** inplace_merge of the runs [I..J] and [J..K]. */
    method InplaceMerge(a: Elem, b: Elem, b1: Elem, less: (Elem, Elem) -> bool, ghost i: nat, ghost j: nat, ghost k: nat)
      requires Valid() && i <= j <= k <= |nodes|
      requires a == Chain()[i + 1] && b == Chain()[j + 1] && b1 == Chain()[k + 1]
      modifies this`nodes, head, tail, nodes
      ensures Valid()
      ensures nodes == old(nodes)[..i] + Merge(less, old(nodes)[i..j], old(nodes)[j..k]) + old(nodes)[k..]
      ensures |nodes| == |old(nodes)| && b1 == Chain()[k + 1]
    {
      hide Exchanged, Valid, Merging, Merge;
      var a0, a1b0 := a, b;
      ghost var s, x, y := nodes, i, j;
      MergingBegins(less, s, i, j, k);
      while a0 != a1b0 && a1b0 != b1
        invariant Valid() && i <= x <= y <= k <= |nodes| == |s| && Merging(less, s, i, j, k, nodes, x, y)
        invariant Within(nodes, s)
        invariant a0 == Chain()[x + 1] && a1b0 == Chain()[y + 1] && b1 == Chain()[k + 1]
        decreases k - x, k - y
      {
        Position(x + 1, y + 1);
        Position(y + 1, k + 1);
        a0, a1b0, x, y := MergeTurn(a0, a1b0, less, s, i, j, k, x, y);
      }
      Position(x + 1, y + 1);
      Position(y + 1, k + 1);
      MergingEnds(less, s, i, j, k, nodes, x, y);
    }

    /** Finds the second run and merges it with the first; returns where it ended. */
    method MergePair(a0: Elem, a1b0: Elem, less: (Elem, Elem) -> bool, ghost s: seq<Elem>, ghost x: nat, ghost cnt: nat)
      returns (b1: Elem, ghost q: nat)
      requires Valid() && Passing(less, s, nodes, x, cnt) && x < |s| && RunEnd(less, nodes[x..]) < |nodes| - x
      requires a0 == Chain()[x + 1] && a1b0 == Chain()[x + RunEnd(less, nodes[x..]) + 1]
      modifies this`nodes, head, tail, nodes
      ensures Valid() && x < q <= |nodes| == |s| && Within(nodes, s) && Passing(less, s, nodes, q, cnt + 1)
      ensures b1 == Chain()[q + 1]
    {
      hide Valid, Merge, Pass, Runs, Outputs, RunEnd, Within;
      ghost var p := x + RunEnd(less, nodes[x..]);
      assert nodes[p..|nodes|] == nodes[p..];
      b1 := FindEndOfRun(a1b0, tail, less, p, |nodes|);
      q := p + RunEnd(less, nodes[p..]);
      PassingPair(less, s, nodes, x, cnt);
      InplaceMerge(a0, a1b0, b1, less, x, p, q);
    }

    /** One pass of list_sort; returns the number of runs that it outputs. */
    method MergePass(less: (Elem, Elem) -> bool) returns (cnt: nat)
      requires Valid()
      modifies this`nodes, head, tail, nodes
      ensures Valid() && nodes == Pass(less, old(nodes)) && cnt == Outputs(Runs(less, old(nodes)))
    {
      hide Valid, Merge, Passing, Pass, Runs, Outputs, RunEnd;
      cnt := 0;
      ghost var s, x := nodes, 0;
      PassingBegins(less, s);
      var a0 := Next(head, 0);
      while a0 != tail
        invariant Valid() && x <= |nodes| == |s| && Within(nodes, s) && Passing(less, s, nodes, x, cnt)
        invariant a0 == Chain()[x + 1]
        decreases |s| - x
      {
        Position(x + 1, |nodes| + 1);
        cnt := cnt + 1;
        var a1b0 := FindEndOfRun(a0, tail, less, x, |nodes|);
        ghost var p := x + RunEnd(less, nodes[x..]);
        assert nodes[x..|nodes|] == nodes[x..];
        Position(p + 1, |nodes| + 1);
        if a1b0 == tail {
          PassingLast(less, s, nodes, x, cnt - 1);
          return;
        }
        a0, x := MergePair(a0, a1b0, less, s, x, cnt - 1);
      }
      Position(x + 1, |nodes| + 1);
      PassingEnds(less, s, nodes, cnt);
    }

    /** list_sort: the passes go on until one outputs at most one run. */
    method Sort(less: (Elem, Elem) -> bool)
      requires Valid() && StrictWeak(less, nodes)
      modifies this`nodes, head, tail, nodes
      ensures Valid() && StableSort(less, old(nodes), nodes)
    {
      hide Distinct, Linked, StrictWeak, Sorted, Pass, Runs, SameClasses;
      ghost var s := nodes;
      PassStable(less, s);
      PassRuns(less, s, s);
      var cnt := MergePass(less);
      SameElements(less, s, nodes);
      while cnt > 1
        invariant Valid() && StrictWeak(less, nodes) && SameClasses(less, s, nodes) && Within(nodes, s)
        invariant Runs(less, nodes) <= cnt
        decreases cnt
      {
        ghost var t := nodes;
        PassStable(less, t);
        PassRuns(less, t, t);
        SameClassesTrans(less, s, t, Pass(less, t));
        SameElements(less, s, Pass(less, t));
        cnt := MergePass(less);
      }
      OneRun(less, nodes, nodes);
    }

    /** list_insert_ordered; returns the position of ELEM. */
    method InsertOrdered(elem: Elem, less: (Elem, Elem) -> bool) returns (ghost p: nat)
      requires Valid() && elem !in Chain()
      modifies this`nodes, head, tail, nodes, elem
      ensures Valid() && p <= |old(nodes)| && nodes == old(nodes)[..p] + [elem] + old(nodes)[p..]
      ensures forall k :: 0 <= k < p ==> !less(elem, old(nodes)[k])
      ensures p < |old(nodes)| ==> less(elem, old(nodes)[p])
      ensures Sorted(less, old(nodes)) && StrictWeak(less, old(nodes) + [elem]) ==>
                StableSort(less, old(nodes) + [elem], nodes)
    {
      hide Distinct, Linked, Sorted, StrictWeak, StableSort;
      ghost var s := nodes;
      p := 0;
      var e := Next(head, 0);
      OnePosition(Chain(), p + 1, |nodes| + 1);
      while e != tail && !less(elem, e)
        invariant Valid() && nodes == old(nodes)
        invariant p <= |nodes| && e == Chain()[p + 1] && (e == tail <==> p == |nodes|)
        invariant forall k :: 0 <= k < p ==> !less(elem, nodes[k])
        decreases |nodes| - p
      {
        e := Next(e, p + 1);
        p := p + 1;
        OnePosition(Chain(), p + 1, |nodes| + 1);
      }
      Insert(e, elem, p);
      if Sorted(less, s) && StrictWeak(less, s + [elem]) {
        InsertedSorted(less, s, elem, p);
      }
    }
  }
}
