/**
 * Arithmetic on the Chord identifier ring: powers of two, the clockwise
 * distance between two identifiers, and the owner of an identifier among a
 * set of live node identifiers.
 */
module RingMath {

  /** 2^k, the number of identifiers on an m-bit ring is Pow2(m). */
  function Pow2(k: nat): (r: nat)
    ensures r >= 1
  {
    if k == 0 then 1 else 2 * Pow2(k - 1)
  }

  lemma {:induction false} Pow2Monotone(j: nat, k: nat)
    requires j < k
    ensures 2 * Pow2(j) <= Pow2(k)
  {
    if j + 1 < k {
      Pow2Monotone(j, k - 1);
    }
  }

  /** Clockwise distance from a to b on a ring of n identifiers. */
  function Dist(a: int, b: int, n: int): int
    requires n > 0
  {
    (b - a) % n
  }

  /**
   * How many identifiers the interval that starts at a and stops at b covers
   * when walked clockwise; an interval whose two ends coincide is the whole
   * ring.
   */
  function Span(a: int, b: int, n: int): (s: int)
    requires n > 0
    ensures 0 < s <= n
  {
    if Dist(a, b, n) == 0 then n else Dist(a, b, n)
  }

  lemma MulAtLeast(a: int, n: int)
    requires a >= 1 && n > 0
    ensures a * n >= n
  {
    var k := a - 1;
    assert k * n >= 0;
    assert a * n == k * n + n;
  }

  /** Euclidean remainder is determined by any quotient/remainder split. */
  lemma ModUnique(x: int, n: int, q: int, r: int)
    requires n > 0 && 0 <= r < n && x == q * n + r
    ensures x % n == r
  {
    var q' := x / n;
    var r' := x % n;
    assert x == q' * n + r';
    assert (q - q') * n == r' - r;
    if q > q' {
      MulAtLeast(q - q', n);
    } else if q < q' {
      MulAtLeast(q' - q, n);
    }
  }

  /** Distances add up around the ring, modulo one full turn. */
  lemma DistAdd(a: int, b: int, c: int, n: int)
    requires n > 0
    ensures Dist(a, c, n) ==
      if Dist(a, b, n) + Dist(b, c, n) < n then Dist(a, b, n) + Dist(b, c, n)
      else Dist(a, b, n) + Dist(b, c, n) - n
  {
    var q1, q2 := (b - a) / n, (c - b) / n;
    assert b - a == q1 * n + Dist(a, b, n);
    assert c - b == q2 * n + Dist(b, c, n);
    var s := Dist(a, b, n) + Dist(b, c, n);
    if s < n {
      assert c - a == (q1 + q2) * n + s;
      ModUnique(c - a, n, q1 + q2, s);
    } else {
      assert c - a == (q1 + q2 + 1) * n + (s - n);
      ModUnique(c - a, n, q1 + q2 + 1, s - n);
    }
  }

  /** Reducing either end modulo n does not move it on the ring. */
  lemma DistNormalize(a: int, b: int, n: int)
    requires n > 0
    ensures Dist(a % n, b, n) == Dist(a, b, n)
    ensures Dist(a, b % n, n) == Dist(a, b, n)
  {
    var qa, qb := a / n, b / n;
    assert a == qa * n + a % n;
    assert b == qb * n + b % n;
    var q := (b - a) / n;
    assert b - a == q * n + Dist(a, b, n);
    assert b - a % n == (q + qa) * n + Dist(a, b, n);
    ModUnique(b - a % n, n, q + qa, Dist(a, b, n));
    assert b % n - a == (q - qb) * n + Dist(a, b, n);
    ModUnique(b % n - a, n, q - qb, Dist(a, b, n));
  }

  /** Ownership does not depend on how the identifier is written: id and id % n have the same owner. */
  lemma OwnerNormalize(live: set<int>, id: int, s: int, n: int)
    requires n > 0 && IsOwner(live, id, s, n)
    ensures IsOwner(live, id % n, s, n)
  {
    forall q | q in live
      ensures Dist(id % n, s, n) <= Dist(id % n, q, n)
    {
      DistNormalize(id, s, n);
      DistNormalize(id, q, n);
    }
  }

  /** A distance of k < n is reached exactly by adding k. */
  lemma DistOfOffset(a: int, k: int, n: int)
    requires n > 0 && 0 <= k < n
    ensures Dist(a, a + k, n) == k
  {
    ModUnique(k, n, 0, k);
  }

  /** Distance zero means the same point of the ring. */
  lemma DistZero(a: int, b: int, n: int)
    requires n > 0 && 0 <= a < n && 0 <= b < n
    ensures Dist(a, b, n) == 0 <==> a == b
  {
    if a <= b {
      ModUnique(b - a, n, 0, b - a);
    } else {
      ModUnique(b - a, n, -1, b - a + n);
    }
  }

  /** Distance between two reduced identifiers, without a remainder. */
  lemma DistConcrete(a: int, b: int, n: int)
    requires n > 0 && 0 <= a < n && 0 <= b < n
    ensures Dist(a, b, n) == if a <= b then b - a else b - a + n
  {
    if a <= b {
      ModUnique(b - a, n, 0, b - a);
    } else {
      ModUnique(b - a, n, -1, b - a + n);
    }
  }

  /** Walking a to c through b: the second leg is the difference of distances. */
  lemma DistBetween(a: int, b: int, c: int, n: int)
    requires n > 0 && Dist(a, b, n) <= Dist(a, c, n)
    ensures Dist(b, c, n) == Dist(a, c, n) - Dist(a, b, n)
  {
    DistAdd(a, b, c, n);
  }

  /** From a fixed point, distinct reduced identifiers are at distinct distances. */
  lemma DistInjective(a: int, b: int, c: int, n: int)
    requires n > 0 && 0 <= b < n && 0 <= c < n
    requires Dist(a, b, n) == Dist(a, c, n)
    ensures b == c
  {
    DistBetween(a, b, c, n);
    DistZero(b, c, n);
  }

  // ---------------------------------------------------------------------
  // Ownership on a ring of live nodes
  // ---------------------------------------------------------------------

  /**
   * s is the owner of identifier id among the live node identifiers: the
   * first live identifier met walking clockwise from id (id itself included).
   */
  ghost predicate IsOwner(live: set<int>, id: int, s: int, n: int)
    requires n > 0
  {
    s in live && forall q :: q in live ==> Dist(id, s, n) <= Dist(id, q, n)
  }

  /** Live identifiers are reduced modulo the ring size. */
  ghost predicate OnRing(live: set<int>, n: int)
  {
    forall q :: q in live ==> 0 <= q < n
  }

  /** An identifier has at most one owner. */
  lemma OwnerUnique(live: set<int>, id: int, s1: int, s2: int, n: int)
    requires n > 0 && OnRing(live, n)
    requires IsOwner(live, id, s1, n) && IsOwner(live, id, s2, n)
    ensures s1 == s2
  {
    DistInjective(id, s1, s2, n);
  }

  /** Walking back from b to a is the rest of the turn. */
  lemma DistBack(a: int, b: int, n: int)
    requires n > 0 && Dist(a, b, n) > 0
    ensures Dist(b, a, n) == n - Dist(a, b, n)
  {
    DistAdd(a, b, a, n);
    assert Dist(a, a, n) == 0;
  }

  /**
   * The half-open interval that stops one past s is the closed interval
   * ending at s: Dist(a, x) < Span(a, s+1) exactly when Dist(a, x) <= Dist(a, s).
   */
  lemma SpanSucc(a: int, s: int, x: int, n: int)
    requires n > 0
    ensures Dist(a, x, n) < Span(a, s + 1, n) <==> Dist(a, x, n) <= Dist(a, s, n)
  {
    DistAdd(a, s, s + 1, n);
    if n > 1 {
      DistOfOffset(s, 1, n);
    } else {
      assert Dist(a, x, n) == 0 && Dist(a, s, n) == 0;
    }
  }

  /**
   * The interval (p, s] of a node s whose predecessor on the ring is p holds
   * the identifiers that s owns: if s is the first live node after p and id
   * lies in (p, s], that is Dist(p+1, id) < Span(p+1, s+1), then s owns id.
   */
  lemma {:induction false} IntervalOwner(live: set<int>, n: int, p: int, s: int, id: int)
    requires n > 0
    requires IsOwner(live, p + 1, s, n)
    requires Dist(p + 1, id, n) < Span(p + 1, s + 1, n)
    ensures IsOwner(live, id, s, n)
  {
    SpanSucc(p + 1, s, id, n);
    DistBetween(p + 1, id, s, n);
    forall q | q in live
      ensures Dist(id, s, n) <= Dist(id, q, n)
    {
      DistBetween(p + 1, id, q, n);
    }
  }

  /**
   * Conversely, the owner s of id whose predecessor p is live has id in
   * (p, s]: the owning node's interval test accepts every identifier it owns.
   */
  lemma {:induction false} OwnerInInterval(live: set<int>, n: int, p: int, s: int, id: int)
    requires n > 0
    requires p in live
    requires IsOwner(live, p + 1, s, n)
    requires IsOwner(live, id, s, n)
    ensures Dist(p + 1, id, n) < Span(p + 1, s + 1, n)
  {
    SpanSucc(p + 1, s, id, n);
    var x, y := Dist(p + 1, id, n), Dist(p + 1, s, n);
    if x > y {
      // s comes strictly before id when walking from p+1, so walking from
      // id the live node p is met before s: s cannot own id
      DistBack(p + 1, id, n);
      DistAdd(id, p + 1, s, n);
      DistAdd(id, p, p + 1, n);
      DistOfOffset(p, 1, n);
      assert false;
    }
  }

  /**
   * The copy-forward rule of a joining node self: if s owns identifier a,
   * which lies strictly after self, and b lies after a but still in
   * [self, s) (the interval test on the next finger's start), then s owns b
   * as well.
   */
  lemma {:induction false} CopyForwardSound(live: set<int>, n: int, self: int, a: int, b: int, s: int)
    requires n > 0
    requires IsOwner(live, a, s, n)
    requires 0 < Dist(self, a, n) <= Dist(self, b, n)
    requires Dist(self, b, n) < Span(self, s, n)
    ensures IsOwner(live, b, s, n)
  {
    var da, db, ds := Dist(self, a, n), Dist(self, b, n), Dist(self, s, n);
    DistBetween(self, a, b, n);
    if ds == 0 {
      DistBack(self, a, n);
      DistAdd(a, self, s, n);
      assert Dist(a, s, n) == n - da;
    } else {
      DistBetween(self, a, s, n);
    }
    DistBetween(a, b, s, n);
    forall q | q in live
      ensures Dist(b, s, n) <= Dist(b, q, n)
    {
      DistBetween(a, b, q, n);
    }
  }
}
