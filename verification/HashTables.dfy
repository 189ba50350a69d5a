/** The kernel's hash tables: chained buckets, a power of two of them. */
module HashTables {
  import opened Basics
  import opened Arithmetic
  import opened BitAnd

  predicate Equal<E>(less: (E, E) -> bool, x: E, y: E) {
    !less(x, y) && !less(y, x)
  }

  /** What the caller's functions must obey: equality is an equivalence, and equal elements have equal hashes. */
  ghost predicate Lawful<E(!new)>(hash: E -> nat, less: (E, E) -> bool) {
    && (forall x :: !less(x, x))
    && (forall x, y, z :: Equal(less, x, y) && Equal(less, y, z) ==> Equal(less, x, z))
    && (forall x, y :: Equal(less, x, y) ==> hash(x) == hash(y))
  }

  /** The bucket for a hash value. */
  function Index(h: nat, cnt: nat): (i: nat)
    requires cnt > 0
    ensures i < cnt
  {
    And(h, cnt - 1)
  }

  /** With a power of two of buckets, the bucket is the hash modulo their number. */
  lemma IndexIsRemainder(h: nat, cnt: nat)
    requires BucketCount(cnt)
    ensures Index(h, cnt) == h % cnt
  {
    hide And, Pow2, Log;
    AndMask(h, Log(cnt));
  }

  /** All elements, bucket by bucket. */
  ghost function Items<E>(bs: seq<seq<E>>): seq<E> {
    if bs == [] then [] else Items(bs[..|bs| - 1]) + bs[|bs| - 1]
  }

  /** Every element sits in the bucket of its hash. */
  ghost predicate Placed<E(!new)>(hash: E -> nat, bs: seq<seq<E>>)
    requires |bs| > 0
  {
    forall i, e :: 0 <= i < |bs| && e in bs[i] ==> Index(hash(e), |bs|) == i
  }

  /** The buckets hold exactly ELEMS, each once. */
  ghost predicate TableOk<E(!new)>(hash: E -> nat, bs: seq<seq<E>>, elems: set<E>) {
    |bs| > 0 && Placed(hash, bs) && multiset(Items(bs)) == multiset(elems)
  }

  /** At most one element of each equality class. */
  ghost predicate Keyed<E>(less: (E, E) -> bool, elems: set<E>) {
    forall x, y :: x in elems && y in elems && Equal(less, x, y) ==> x == y
  }

  /** Four or more, and a power of two. */
  ghost predicate BucketCount(n: nat) {
    n >= 4 && n == Pow2(Log(n))
  }

  lemma {:induction false} ItemsUpdate<E>(bs: seq<seq<E>>, i: nat, xs: seq<E>)
    requires i < |bs|
    ensures multiset(bs[i]) <= multiset(Items(bs))
    ensures multiset(Items(bs[i := xs])) == multiset(Items(bs)) - multiset(bs[i]) + multiset(xs)
    decreases |bs|
  {
    var n := |bs| - 1;
    var bs' := bs[i := xs];
    if i == n {
      assert bs'[..n] == bs[..n];
    } else {
      assert bs'[..n] == bs[..n][i := xs];
      ItemsUpdate(bs[..n], i, xs);
    }
  }

  /** An element is in its own bucket or nowhere. */
  lemma InBucket<E(!new)>(hash: E -> nat, bs: seq<seq<E>>, elems: set<E>, e: E)
    requires TableOk(hash, bs, elems)
    ensures e in elems <==> e in bs[Index(hash(e), |bs|)]
    ensures forall i :: 0 <= i < |bs| && e in bs[i] ==> e in elems
  {
    forall i | 0 <= i < |bs| && e in bs[i] ensures e in elems {
      ItemsUpdate(bs, i, bs[i]);
      assert e in multiset(bs[i]) && e in multiset(Items(bs));
    }
    if e in elems {
      assert e in multiset(elems) && e in Items(bs);
      SomeBucket(bs, e);
    }
  }

  lemma {:induction false} SomeBucket<E>(bs: seq<seq<E>>, e: E)
    requires e in Items(bs)
    ensures exists i :: 0 <= i < |bs| && e in bs[i]
    decreases |bs|
  {
    var n := |bs| - 1;
    if e !in bs[n] {
      SomeBucket(bs[..n], e);
      var i :| 0 <= i < n && e in bs[..n][i];
      assert e in bs[i];
    }
  }

  /** list_push_front on the element's bucket. */
  lemma PushOk<E(!new)>(hash: E -> nat, bs: seq<seq<E>>, elems: set<E>, e: E)
    requires TableOk(hash, bs, elems) && e !in elems
    ensures var i := Index(hash(e), |bs|); TableOk(hash, bs[i := [e] + bs[i]], elems + {e})
  {
    var i := Index(hash(e), |bs|);
    ItemsUpdate(bs, i, [e] + bs[i]);
    assert multiset([e] + bs[i]) == multiset(bs[i]) + multiset{e};
    assert multiset(elems + {e}) == multiset(elems) + multiset{e};
  }

  /** The bucket without one element. */
  function Without<E(==)>(xs: seq<E>, e: E): seq<E> {
    if xs == [] then [] else if xs[0] == e then xs[1..] else [xs[0]] + Without(xs[1..], e)
  }

  lemma {:induction false} WithoutOne<E>(xs: seq<E>, e: E)
    requires e in xs
    ensures multiset(Without(xs, e)) == multiset(xs) - multiset{e}
  {
    assert xs == [xs[0]] + xs[1..];
    if xs[0] != e {
      WithoutOne(xs[1..], e);
    }
  }

  /** list_remove of an element. */
  lemma RemoveOk<E(!new)>(hash: E -> nat, bs: seq<seq<E>>, elems: set<E>, e: E)
    requires TableOk(hash, bs, elems) && e in elems
    ensures var i := Index(hash(e), |bs|); TableOk(hash, bs[i := Without(bs[i], e)], elems - {e})
  {
    var i := Index(hash(e), |bs|);
    InBucket(hash, bs, elems, e);
    var xs := Without(bs[i], e);
    WithoutOne(bs[i], e);
    ItemsUpdate(bs, i, xs);
    assert multiset(elems - {e}) == multiset(elems) - multiset{e};
    forall x | x in xs ensures x in bs[i] {
      assert x in multiset(xs);
    }
  }

  // ---- the number of buckets ----

  /** The bucket count that rehash wants for N elements. */
  ghost predicate BestCount(n: nat, cnt: nat) {
    var best := if n / 2 < 4 then 4 else n / 2;
    BucketCount(cnt) && cnt <= best < 2 * cnt
  }

  lemma FourIsCount()
    ensures BucketCount(4) && Log(4) == 2
  {
    assert Pow2(2) == 2 * Pow2(1) && Pow2(1) == 2 * Pow2(0);
    LogUnique(4, Log(4), 2);
  }

  /** Turning bits off one at a time ends at the highest power of two. */
  lemma TurnOffKeepsLog(x: nat)
    requires x >= 4 && !IsPowerOf2(x)
    ensures 4 <= TurnOff(x) < x && Log(TurnOff(x)) == Log(x)
  {
    var k := Log(x);
    TurnOffBounds(x, k);
    LogUnique(TurnOff(x), Log(TurnOff(x)), k);
    PowerAtLeastFour(x, k);
  }

  lemma PowerAtLeastFour(x: nat, k: nat)
    requires x >= 4 && Pow2(k) <= x < 2 * Pow2(k)
    ensures Pow2(k) >= 4
  {
    assert k >= 2 by {
      assert Pow2(0) == 1 && Pow2(1) == 2;
    }
    assert Pow2(k) == 2 * Pow2(k - 1) && Pow2(k - 1) == 2 * Pow2(k - 2);
  }

  lemma PowerIsCount(x: nat)
    requires x >= 4 && IsPowerOf2(x)
    ensures BucketCount(x)
  {
    IsPowerOf2Iff(x);
  }

  // ---- moving the elements ----

  /** The elements of the first I buckets and of the first J places of the next. */
  ghost function Before<E>(bs: seq<seq<E>>, i: nat, j: nat): seq<E>
    requires i <= |bs| && (i < |bs| ==> j <= |bs[i]|) && (i == |bs| ==> j == 0)
  {
    if i == |bs| then Items(bs) else Items(bs[..i]) + bs[i][..j]
  }

  lemma BeforeNext<E>(bs: seq<seq<E>>, i: nat, j: nat)
    requires i < |bs| && j < |bs[i]|
    ensures Before(bs, i, j + 1) == Before(bs, i, j) + [bs[i][j]]
  {
    assert bs[i][..j + 1] == bs[i][..j] + [bs[i][j]];
  }

  lemma BeforeBucket<E>(bs: seq<seq<E>>, i: nat)
    requires i < |bs|
    ensures Before(bs, i, |bs[i]|) == Before(bs, i + 1, 0)
  {
    var cs := bs[..i + 1];
    assert cs[..i] == bs[..i] && cs[i] == bs[i] && bs[i][..|bs[i]|] == bs[i];
    assert Items(cs) == Items(bs[..i]) + bs[i];
    if i + 1 == |bs| {
      assert cs == bs;
    } else {
      assert bs[i + 1][..0] == [];
    }
  }

  lemma {:induction false} ItemsPrefix<E>(bs: seq<seq<E>>, i: nat)
    requires i <= |bs|
    ensures multiset(Items(bs[..i])) <= multiset(Items(bs))
    decreases |bs|
  {
    if i == |bs| {
      assert bs[..i] == bs;
    } else {
      ItemsPrefix(bs[..|bs| - 1], i);
      assert bs[..|bs| - 1][..i] == bs[..i];
    }
  }

  lemma BeforeWithin<E>(bs: seq<seq<E>>, i: nat, j: nat)
    requires i < |bs| && j <= |bs[i]|
    ensures multiset(Before(bs, i, j)) <= multiset(Items(bs))
  {
    ItemsPrefix(bs, i + 1);
    var cs := bs[..i + 1];
    assert cs[..i] == bs[..i] && cs[i] == bs[i];
    assert bs[i] == bs[i][..j] + bs[i][j..];
    assert Items(cs) == Items(bs[..i]) + bs[i];
  }

  /** The next element to move has not been moved yet. */
  lemma NotMoved<E>(bs: seq<seq<E>>, elems: set<E>, i: nat, j: nat, moved: set<E>)
    requires multiset(Items(bs)) == multiset(elems) && i < |bs| && j < |bs[i]|
    requires multiset(Before(bs, i, j)) == multiset(moved)
    ensures bs[i][j] !in moved && multiset(Before(bs, i, j + 1)) == multiset(moved + {bs[i][j]})
  {
    hide Before, Items;
    var e := bs[i][j];
    BeforeNext(bs, i, j);
    BeforeWithin(bs, i, j + 1);
    assert multiset(moved) + multiset{e} <= multiset(elems);
    assert multiset(elems)[e] <= 1;
  }

  function NoItems<E>(n: nat): (bs: seq<seq<E>>)
    ensures |bs| == n && forall i :: 0 <= i < n ==> bs[i] == []
  {
    seq(n, i => [])
  }

  lemma {:induction false} Emptied<E>(bs: seq<seq<E>>)
    requires forall i :: 0 <= i < |bs| ==> bs[i] == []
    ensures Items(bs) == []
    decreases |bs|
  {
    if bs != [] {
      Emptied(bs[..|bs| - 1]);
    }
  }

  class HashTable<E(==, !new)> {
    const hash: E -> nat
    const less: (E, E) -> bool
    var buckets: seq<seq<E>>
    var elemCnt: nat
    ghost var elems: set<E>

    ghost predicate Valid()
      reads this
    {
      && Lawful(hash, less) && Keyed(less, elems)
      && TableOk(hash, buckets, elems) && BucketCount(|buckets|)
      && elemCnt == |elems|
    }

    /** hash_init once it has its buckets. */
    constructor (h: E -> nat, l: (E, E) -> bool)
      requires Lawful(h, l)
      ensures Valid() && hash == h && less == l && elems == {}
    {
      hash, less := h, l;
      elemCnt, elems := 0, {};
      buckets := NoItems(4);
      new;
      FourIsCount();
      Emptied(buckets);
    }

    /** find_elem. */
    method FindElem(b: nat, e: E) returns (r: Option<E>)
      requires b < |buckets|
      ensures r.None? ==> forall x :: x in buckets[b] ==> !Equal(less, x, e)
      ensures r.Some? ==> r.value in buckets[b] && Equal(less, r.value, e)
    {
      var xs, i := buckets[b], 0;
      while i < |xs|
        invariant i <= |xs| && forall k :: 0 <= k < i ==> !Equal(less, xs[k], e)
      {
        if !less(xs[i], e) && !less(e, xs[i]) {
          return Some(xs[i]);
        }
        i := i + 1;
      }
      r := None;
    }

    /** hash_find: the table's element equal to E, or none when there is none. */
    method Find(e: E) returns (r: Option<E>)
      requires Valid()
      ensures r.None? <==> forall x :: x in elems ==> !Equal(less, x, e)
      ensures r.Some? ==> r.value in elems && Equal(less, r.value, e)
    {
      r := FindElem(Index(hash(e), |buckets|), e);
      hide Lawful;
      forall x ensures x in elems && Equal(less, x, e) ==> x in buckets[Index(hash(e), |buckets|)] {
        SameHash(hash, less, x, e);
        InBucket(hash, buckets, elems, x);
      }
      if r.Some? {
        InBucket(hash, buckets, elems, r.value);
      }
    }

    /** The loop that finds the bucket count. */
    method WantedCount() returns (cnt: nat)
      ensures BestCount(elemCnt, cnt)
    {
      hide Log, Pow2, TurnOff;
      var best := if elemCnt / 2 < 4 then 4 else elemCnt / 2;
      cnt := best;
      while !IsPowerOf2(cnt)
        invariant 4 <= cnt <= best && Log(cnt) == Log(best)
        decreases cnt
      {
        TurnOffKeepsLog(cnt);
        cnt := TurnOff(cnt);
      }
      PowerIsCount(cnt);
    }

    /** The loops that move every element to its new bucket. */
    method MoveAll(cnt: nat) returns (bs: seq<seq<E>>)
      requires TableOk(hash, buckets, elems) && cnt > 0
      ensures TableOk(hash, bs, elems) && |bs| == cnt
    {
      hide Before, Items, Index, TableOk;
      OnceEach(hash, buckets, elems);
      bs := NoItems(cnt);
      ghost var moved: set<E> := {};
      EmptyTable(hash, bs);
      StartBefore(buckets);
      var i := 0;
      while i < |buckets|
        invariant i <= |buckets| && |bs| == cnt && TableOk(hash, bs, moved)
        invariant multiset(Before(buckets, i, 0)) == multiset(moved)
      {
        var j := 0;
        while j < |buckets[i]|
          invariant j <= |buckets[i]| && |bs| == cnt && TableOk(hash, bs, moved)
          invariant multiset(Before(buckets, i, j)) == multiset(moved)
        {
          var e := buckets[i][j];
          NotMoved(buckets, elems, i, j, moved);
          PushOk(hash, bs, moved, e);
          var b := Index(hash(e), |bs|);
          bs := bs[b := [e] + bs[b]];
          moved := moved + {e};
          j := j + 1;
        }
        BeforeBucket(buckets, i);
        i := i + 1;
      }
      EndBefore(buckets);
      SameSet(moved, elems);
    }

    /** rehash; ROOM tells whether memory for the new buckets is to be had. */
    method Rehash(room: bool)
      requires Valid()
      modifies this`buckets
      ensures Valid()
      ensures BestCount(elemCnt, |buckets|) || (!room && buckets == old(buckets))
    {
      hide TableOk, Lawful, Keyed, BucketCount;
      var cnt := WantedCount();
      if cnt == |buckets| || !room {
        return;
      }
      buckets := MoveAll(cnt);
    }

    /** hash_insert: adds E unless an equal element is there, which is returned. */
    method Insert(e: E, room: bool) returns (r: Option<E>)
      requires Valid()
      modifies this
      ensures Valid()
      ensures r.None? <==> forall x :: x in old(elems) ==> !Equal(less, x, e)
      ensures r.Some? ==> r.value in old(elems) && Equal(less, r.value, e)
      ensures elems == if r.None? then old(elems) + {e} else old(elems)
    {
      hide TableOk, BucketCount;
      r := Find(e);
      if r.None? {
        InsertElem(e);
      }
      Rehash(room);
    }

    /** insert_elem of an element equal to none in the table. */
    method InsertElem(e: E)
      requires Valid() && forall x :: x in elems ==> !Equal(less, x, e)
      modifies this
      ensures Valid() && elems == old(elems) + {e} && |buckets| == |old(buckets)|
    {
      hide TableOk, BucketCount;
      assert e !in elems by { SelfEqual(hash, less, e); }
      PushOk(hash, buckets, elems, e);
      NonEmpty(hash, buckets, elems);
      elemCnt := elemCnt + 1;
      var b := Index(hash(e), |buckets|);
      buckets := buckets[b := [e] + buckets[b]];
      elems := elems + {e};
    }

    /** remove_elem. */
    method RemoveElem(e: E)
      requires Valid() && e in elems
      modifies this
      ensures Valid() && elems == old(elems) - {e} && |buckets| == |old(buckets)|
    {
      hide TableOk, BucketCount, Lawful;
      RemoveOk(hash, buckets, elems, e);
      NonEmpty(hash, buckets, elems);
      elemCnt := elemCnt - 1;
      var b := Index(hash(e), |buckets|);
      buckets := buckets[b := Without(buckets[b], e)];
      elems := elems - {e};
    }

    /** hash_replace: afterwards E is in the table, and whatever equalled it is returned. */
    method Replace(e: E, room: bool) returns (r: Option<E>)
      requires Valid()
      modifies this
      ensures Valid()
      ensures r.None? <==> forall x :: x in old(elems) ==> !Equal(less, x, e)
      ensures r.Some? ==> r.value in old(elems) && Equal(less, r.value, e)
      ensures elems == (if r.None? then old(elems) else old(elems) - {r.value}) + {e}
    {
      hide TableOk, BucketCount;
      r := Find(e);
      if r.Some? {
        OnlyEqual(hash, less, elems, r.value, e);
        RemoveElem(r.value);
      }
      InsertElem(e);
      Rehash(room);
    }

    /** hash_delete: removes and returns the element equal to E, if there is one. */
    method Delete(e: E, room: bool) returns (r: Option<E>)
      requires Valid()
      modifies this
      ensures Valid()
      ensures r.None? <==> forall x :: x in old(elems) ==> !Equal(less, x, e)
      ensures r.Some? ==> r.value in old(elems) && Equal(less, r.value, e)
      ensures elems == if r.None? then old(elems) else old(elems) - {r.value}
      ensures forall x :: x in elems ==> !Equal(less, x, e)
    {
      hide TableOk, BucketCount;
      r := Find(e);
      if r.Some? {
        OnlyEqual(hash, less, elems, r.value, e);
        RemoveElem(r.value);
        Rehash(room);
      }
    }
  }

  lemma SelfEqual<E(!new)>(hash: E -> nat, less: (E, E) -> bool, e: E)
    requires Lawful(hash, less)
    ensures Equal(less, e, e)
  {
  }

  /** Taking out the element equal to E leaves none equal to it. */
  lemma OnlyEqual<E(!new)>(hash: E -> nat, less: (E, E) -> bool, elems: set<E>, x: E, e: E)
    requires Lawful(hash, less) && Keyed(less, elems) && x in elems && Equal(less, x, e)
    ensures forall y :: y in elems - {x} ==> !Equal(less, y, e)
  {
    forall y | y in elems && y != x ensures !Equal(less, y, e) {
      assert Equal(less, e, x);
    }
  }

  lemma NonEmpty<E(!new)>(hash: E -> nat, bs: seq<seq<E>>, elems: set<E>)
    requires TableOk(hash, bs, elems)
    ensures |bs| > 0
  {
  }

  lemma OnceEach<E(!new)>(hash: E -> nat, bs: seq<seq<E>>, elems: set<E>)
    requires TableOk(hash, bs, elems)
    ensures multiset(Items(bs)) == multiset(elems) && |bs| > 0
  {
  }

  lemma EmptyTable<E(!new)>(hash: E -> nat, bs: seq<seq<E>>)
    requires |bs| > 0 && forall i :: 0 <= i < |bs| ==> bs[i] == []
    ensures TableOk(hash, bs, {})
  {
    Emptied(bs);
  }

  lemma StartBefore<E>(bs: seq<seq<E>>)
    requires |bs| > 0
    ensures Before(bs, 0, 0) == []
  {
    assert bs[0][..0] == [];
  }

  lemma EndBefore<E>(bs: seq<seq<E>>)
    ensures Before(bs, |bs|, 0) == Items(bs)
  {
  }

  lemma SameSet<E>(a: set<E>, b: set<E>)
    requires multiset(a) == multiset(b)
    ensures a == b
  {
    assert forall x :: x in a <==> x in multiset(a);
    assert forall x :: x in b <==> x in multiset(b);
  }

  lemma SameHash<E(!new)>(hash: E -> nat, less: (E, E) -> bool, x: E, y: E)
    requires Lawful(hash, less)
    ensures Equal(less, x, y) ==> hash(x) == hash(y)
  {
  }

  /** hash_init; MEMORY says whether the buckets are to be had. */
  method Init<E(==, !new)>(h: E -> nat, l: (E, E) -> bool, memory: bool) returns (r: Option<HashTable<E>>)
    requires Lawful(h, l)
    ensures r.Some? <==> memory
    ensures r.Some? ==> fresh(r.value) && r.value.Valid() && r.value.hash == h && r.value.less == l && r.value.elems == {}
  {
    if !memory {
      return None;
    }
    var table := new HashTable(h, l);
    r := Some(table);
  }

  /** An iteration over a table that nobody changes meanwhile. */
  class Cursor<E(==, !new)> {
    const table: HashTable<E>
    var bucket: nat
    var pos: int

    ghost predicate Valid()
      reads this, table
    {
      && bucket <= |table.buckets|
      && (bucket < |table.buckets| ==> -1 <= pos < |table.buckets[bucket]|)
      && (bucket == |table.buckets| ==> pos == -1)
    }

    /** The elements that have been returned. */
    ghost function Seen(): seq<E>
      requires Valid()
      reads this, table
    {
      Before(table.buckets, bucket, pos + 1)
    }

    /** hash_first. */
    constructor (t: HashTable<E>)
      requires |t.buckets| > 0
      ensures table == t && Valid() && Seen() == [] && bucket < |t.buckets|
    {
      table, bucket, pos := t, 0, -1;
      new;
      StartBefore(t.buckets);
    }

    /** hash_next: one more element, or none when all have been returned. */
    method Next() returns (r: Option<E>)
      requires Valid() && bucket < |table.buckets|
      modifies this
      ensures Valid() && (r.None? <==> bucket == |table.buckets|)
      ensures Seen() == old(Seen()) + (if r.Some? then [r.value] else [])
      ensures r.None? ==> Seen() == Items(table.buckets)
    {
      hide Before;
      pos := pos + 1;
      ghost var seen := old(Seen());
      while pos == |table.buckets[bucket]|
        invariant bucket < |table.buckets| && 0 <= pos <= |table.buckets[bucket]|
        invariant Before(table.buckets, bucket, pos) == seen
        decreases |table.buckets| - bucket
      {
        BeforeBucket(table.buckets, bucket);
        bucket := bucket + 1;
        pos := 0;
        if bucket >= |table.buckets| {
          pos := -1;
          EndBefore(table.buckets);
          return None;
        }
      }
      BeforeNext(table.buckets, bucket, pos);
      r := Some(table.buckets[bucket][pos]);
    }
  }

  lemma SeenWithin<E>(bs: seq<seq<E>>, i: nat, j: nat)
    requires i < |bs| && j <= |bs[i]|
    ensures |Before(bs, i, j)| <= |Items(bs)|
  {
    BeforeWithin(bs, i, j);
    var a, b := multiset(Before(bs, i, j)), multiset(Items(bs));
    hide Before, Items;
    assert b == a + (b - a);
  }

  /** The iteration idiom visits every element exactly once. */
  method VisitAll<E(==, !new)>(t: HashTable<E>) returns (out: seq<E>)
    requires t.Valid()
    ensures multiset(out) == multiset(t.elems) && |out| == t.elemCnt
  {
    hide Before, Items, TableOk, Lawful, Keyed, BucketCount;
    OnceEach(t.hash, t.buckets, t.elems);
    out := [];
    var i := new Cursor(t);
    var r := i.Next();
    while r.Some?
      invariant i.Valid() && i.table == t && (r.None? <==> i.bucket == |t.buckets|)
      invariant i.Seen() == out + (if r.Some? then [r.value] else [])
      invariant r.None? ==> i.Seen() == Items(t.buckets)
      decreases |Items(t.buckets)| - |out|
    {
      SeenWithin(t.buckets, i.bucket, i.pos + 1);
      out := out + [r.value];
      r := i.Next();
    }
    assert out == Items(t.buckets);
    assert |multiset(out)| == |out|;
  }
}
