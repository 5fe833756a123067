/**
  Number theory behind double hashing: with a prime number of slots, every
  step size below that number walks through all slots before it repeats.
 */
module ProbeSequence {

  ghost predicate Divides(d: nat, n: nat)
    requires d > 0
  {
    n % d == 0
  }

  ghost predicate IsPrime(n: nat) {
    n >= 2 && forall d {:trigger Divides(d, n)} :: 2 <= d < n ==> !Divides(d, n)
  }

  /** None of d, d - 6, d - 12 and so on divides n, down to 5. */
  predicate NoDivisorBySixes(n: nat, d: nat) {
    d < 5 || (n % d != 0 && (d < 6 || NoDivisorBySixes(n, d - 6)))
  }

  lemma {:induction false} NoDivisorAt(n: nat, d: nat, e: nat, k: nat)
    requires NoDivisorBySixes(n, d) && 5 <= e && d == e + 6 * k
    ensures !Divides(e, n)
    decreases k
  {
    if k > 0 {
      NoDivisorAt(n, d - 6, e, k - 1);
    }
  }

  /** A divisor of n makes its own divisors divide n. */
  lemma DivisorOfDivisor(n: nat, e: nat, d: nat)
    requires e > 0 && d > 0 && Divides(e, n) && Divides(d, e)
    ensures Divides(d, n)
  {
    assert n == (n / e) * e && e == (e / d) * d;
    assert n == (n / e * (e / d)) * d;
    ModUnique(n, 0, n / e * (e / d), d);
  }

  lemma SmallDivisor(n: nat, d: nat, d': nat, e: nat)
    requires n % 2 != 0 && n % 3 != 0 && d % 6 == 5 && d' == d + 2 && 2 <= e < d + 6
    requires NoDivisorBySixes(n, d) && NoDivisorBySixes(n, d')
    ensures !Divides(e, n)
  {
    var k := d / 6;
    assert d == 6 * k + 5 && d' == 6 * (k + 1) + 1 && e == 6 * (e / 6) + e % 6;
    if e % 6 == 5 {
      NoDivisorAt(n, d, e, k - e / 6);
    } else if e % 6 == 1 {
      NoDivisorAt(n, d', e, k + 1 - e / 6);
    } else if Divides(e, n) {
      MultipleOfTwoOrThree(n, e);
      assert false;
    }
  }

  lemma MultipleOfTwoOrThree(n: nat, e: nat)
    requires e >= 2 && e % 6 != 1 && e % 6 != 5 && Divides(e, n)
    ensures n % 2 == 0 || n % 3 == 0
  {
    if e % 2 == 0 {
      DivisorOfDivisor(n, e, 2);
    } else {
      assert e % 3 == 0;
      DivisorOfDivisor(n, e, 3);
    }
  }

  /**
    A number without divisors up to its square root is prime; only 2, 3 and the
    numbers next to multiples of 6 need trying.
   */
  lemma TrialDivision(n: nat, d: nat, d': nat)
    requires n >= 2 && n % 2 != 0 && n % 3 != 0 && d % 6 == 5 && d' == d + 2 && n < (d + 6) * (d + 6)
    requires NoDivisorBySixes(n, d) && NoDivisorBySixes(n, d')
    ensures IsPrime(n)
  {
    forall e | 2 <= e < n
      ensures !Divides(e, n)
    {
      if e < d + 6 {
        SmallDivisor(n, d, d', e);
      } else if Divides(e, n) {
        CofactorDivides(n, d + 5, e);
        SmallDivisor(n, d, d', n / e);
        assert false;
      }
    }
  }

  lemma CofactorDivides(n: nat, d: nat, e: nat)
    requires d < e < n && Divides(e, n) && n < (d + 1) * (d + 1)
    ensures 2 <= n / e <= d && Divides(n / e, n)
  {
    var f := n / e;
    assert n == f * e;
    CofactorIsSmall(n, d, e, f);
    ModUnique(n, 0, e, f);
  }

  lemma CofactorIsSmall(n: nat, d: nat, e: nat, f: nat)
    requires d < e < n && n == f * e && n < (d + 1) * (d + 1)
    ensures 2 <= f <= d
  {
    if f > d {
      ProductAtLeast(f, e, d + 1);
      assert false;
    }
  }

  lemma ProductAtLeast(a: nat, b: nat, c: nat)
    requires a >= c && b >= c
    ensures a * b >= c * c
  {
    assert a * b >= a * c;
  }

  /** The slot examined by the i-th step of a probe that starts at `start`. */
  function ProbeSlot(start: nat, delta: nat, n: nat, i: nat): (slot: nat)
    requires n > 0
    ensures slot < n
  {
    (start + i * delta) % n
  }

  /** `ProbeSlot` is what the loop `slot = (slot + delta) % n` computes. */
  lemma ProbeAdvances(start: nat, delta: nat, n: nat, i: nat)
    requires n > 0
    ensures ProbeSlot(start, delta, n, i + 1) == (ProbeSlot(start, delta, n, i) + delta) % n
  {
    var x := start + i * delta;
    assert start + (i + 1) * delta == x + delta;
    ModUnique(x + delta, (x % n + delta) % n, x / n + (x % n + delta) / n, n);
  }

  /** The remainder is the only r in [0, n) with x == q * n + r. */
  lemma ModUnique(x: int, r: int, q: int, n: nat)
    requires n > 0 && 0 <= r < n && x == q * n + r
    ensures x % n == r
  {
    var q', r' := x / n, x % n;
    assert q * n + r == q' * n + r';
    SmallMultipleIsZero(q - q', n, r' - r);
  }

  lemma SmallMultipleIsZero(a: int, n: int, b: int)
    requires n > 0 && -n < b < n && a * n == b
    ensures a == 0
  {
  }

  /** A prime divides no product of two smaller positive numbers. */
  lemma {:induction false} PrimeDividesNoSmallProduct(n: nat, d: nat, k: nat)
    requires IsPrime(n) && 0 < d < n && 0 < k < n
    ensures (k * d) % n != 0
    decreases k
  {
    if (k * d) % n == 0 {
      if k > 1 {
        var q, r := n / k, n % k;
        assert r != 0 by { assert !Divides(k, n); }
        var m := (k * d) / n;
        assert r * d == n * d - q * (k * d) by { assert n == q * k + r; }
        assert r * d == (d - q * m) * n;
        ModUnique(r * d, 0, d - q * m, n);
        PrimeDividesNoSmallProduct(n, d, r);
      }
      assert false;
    }
  }

  lemma ProbesAreDistinct(start: nat, delta: nat, n: nat, i: nat, j: nat)
    requires IsPrime(n) && 0 < delta < n && i < j < n
    ensures ProbeSlot(start, delta, n, i) != ProbeSlot(start, delta, n, j)
  {
    var x, y := start + i * delta, start + j * delta;
    if x % n == y % n {
      assert (j - i) * delta == (y / n - x / n) * n;
      ModUnique((j - i) * delta, 0, y / n - x / n, n);
      PrimeDividesNoSmallProduct(n, delta, j - i);
      assert false;
    }
  }

  ghost function Range(n: nat): (s: set<nat>)
    ensures |s| == n && forall x: nat :: x in s <==> x < n
  {
    if n == 0 then {} else Range(n - 1) + {n - 1}
  }

  ghost function Elements<T(!new)>(p: seq<T>): (s: set<T>)
    ensures forall x :: x in s <==> x in p
  {
    set x | x in p
  }

  ghost predicate AllDistinct<T(!new)>(p: seq<T>) {
    forall i, j :: 0 <= i < j < |p| ==> p[i] != p[j]
  }

  lemma {:induction false} DistinctCount<T(!new)>(p: seq<T>)
    requires AllDistinct(p)
    ensures |Elements(p)| == |p|
  {
    if p == [] {
      assert Elements(p) == {};
    } else {
      var front, last := p[..|p| - 1], p[|p| - 1];
      DistinctCount(front);
      assert p == front + [last];
      assert Elements(p) == Elements(front) + {last};
    }
  }

  lemma SubsetOfSameSize<T>(a: set<T>, b: set<T>)
    requires a <= b && |a| == |b|
    ensures a == b
  {
    assert |b - a| == |b| - |a|;
  }

  /** The first n probes visit every one of the n slots. */
  lemma ProbesCoverAllSlots(start: nat, delta: nat, n: nat, slot: nat)
    requires IsPrime(n) && 0 < delta < n && slot < n
    ensures exists i :: 0 <= i < n && ProbeSlot(start, delta, n, i) == slot
  {
    var p: seq<nat> := seq(n, i requires 0 <= i < n => ProbeSlot(start, delta, n, i));
    forall i, j | 0 <= i < j < |p|
      ensures p[i] != p[j]
    {
      ProbesAreDistinct(start, delta, n, i, j);
    }
    DistinctCount(p);
    SubsetOfSameSize(Elements(p), Range(n));
    assert slot in p;
  }
}
