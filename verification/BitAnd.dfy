/** Bitwise "and" of naturals, and what it does to powers of two. */
module BitAnd {
  import opened Arithmetic

  function And(x: nat, y: nat): (r: nat)
    ensures r <= y
  {
    if x == 0 || y == 0 then 0 else 2 * And(x / 2, y / 2) + (x % 2) * (y % 2)
  }

  lemma {:induction false} AndSelf(x: nat)
    ensures And(x, x) == x
  {
    if x != 0 {
      AndSelf(x / 2);
    }
  }

  lemma AndOnes(x: nat, p: nat)
    requires p > 0
    ensures And(x, 2 * p - 1) == 2 * And(x / 2, p - 1) + x % 2
  {
    assert (2 * p - 1) / 2 == p - 1 && (2 * p - 1) % 2 == 1;
  }

  function Rem(x: nat, m: nat): nat
    requires m > 0
  {
    x % m
  }

  lemma RemainderOfOne(x: nat)
    ensures Rem(x, 1) == 0
  {
  }

  /** Masking with a power of two less one is the remainder. */
  lemma {:induction false} AndMask(x: nat, k: nat)
    ensures And(x, Pow2(k) - 1) == Rem(x, Pow2(k))
  {
    hide Rem;
    if k == 0 {
      RemainderOfOne(x);
    } else {
      var p := Pow2(k - 1);
      AndMask(x / 2, k - 1);
      AndOnes(x, p);
      RemainderStep(x, p);
    }
  }

  lemma RemainderStep(x: nat, p: nat)
    requires p > 0
    ensures Rem(x, 2 * p) == 2 * Rem(x / 2, p) + x % 2
  {
    var y := x / 2;
    QuotientBounds(y, p);
    QuotientIs(y, p, y / p);
    MaskStep(x, p, y / p);
  }

  lemma MaskStep(x: nat, p: nat, q: nat)
    requires p > 0 && q * p <= x / 2 < q * p + p
    ensures x % (2 * p) == 2 * (x / 2 - q * p) + x % 2
  {
    assert q * (2 * p) == 2 * (q * p);
    QuotientIs(x, 2 * p, q);
  }

  /** X with its lowest one bit turned off. */
  function TurnOff(x: nat): nat
    requires x > 0
  {
    And(x, x - 1)
  }

  lemma {:induction false} TurnOffStep(x: nat)
    requires x > 0
    ensures TurnOff(x) == if x % 2 == 1 then x - 1 else 2 * TurnOff(x / 2)
  {
    if x % 2 == 1 {
      AndSelf(x / 2);
    }
  }

  /** Turning a bit off never goes below the highest power of two; it gives zero
      exactly for powers of two. */
  lemma {:induction false} TurnOffBounds(x: nat, k: nat)
    requires Pow2(k) <= x < 2 * Pow2(k)
    ensures TurnOff(x) < x
    ensures x == Pow2(k) <==> TurnOff(x) == 0
    ensures x != Pow2(k) ==> TurnOff(x) >= Pow2(k)
  {
    TurnOffStep(x);
    if k > 0 {
      TurnOffBounds(x / 2, k - 1);
    }
  }

  predicate IsPowerOf2(x: nat) {
    x != 0 && TurnOff(x) == 0
  }

  ghost function Log(x: nat): (k: nat)
    requires x > 0
    ensures Pow2(k) <= x < 2 * Pow2(k)
  {
    if x == 1 then 0 else 1 + Log(x / 2)
  }

  lemma IsPowerOf2Iff(x: nat)
    requires x > 0
    ensures IsPowerOf2(x) <==> x == Pow2(Log(x))
  {
    TurnOffBounds(x, Log(x));
  }

  lemma {:induction false} LogUnique(x: nat, j: nat, k: nat)
    requires Pow2(j) <= x < 2 * Pow2(j) && Pow2(k) <= x < 2 * Pow2(k)
    ensures j == k
  {
    if j != 0 && k != 0 {
      LogUnique(x / 2, j - 1, k - 1);
    }
  }
}
