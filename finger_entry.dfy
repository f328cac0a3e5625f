/**
 * A row of a Chord finger table (lab4/chord_node.py, class FingerEntry).
 *
 * Entry k of node n covers the identifiers [n + 2^(k-1), n + 2^k) on the
 * ring of Pow2(m) identifiers; the last entry stops at n itself.  The
 * number of bits m is a parameter (the source fixes it to 160, the SHA-1
 * digest size, while its doctests assume 3).
 */
module Fingers {
  import opened Wrappers
  import opened RingMath
  import opened ModRanges

  datatype FingerEntry = FingerEntry(start: int, nextStart: int, interval: ModRange, node: Option<int>)

  /** The constructor's only error: arguments out of range. */
  datatype FingerError = ValueError

  /** First identifier of entry k of node n. */
  function FingerStart(m: nat, n: int, k: nat): int
    requires k >= 1
  {
    (n + Pow2(k - 1)) % Pow2(m)
  }

  /** Identifier where entry k of node n stops (exclusive). */
  function FingerNextStart(m: nat, n: int, k: nat): int
  {
    if k < m then (n + Pow2(k)) % Pow2(m) else n
  }

  /** `FingerEntry(n, k, node)`: raises ValueError unless 0 <= n < 2^m and 1 <= k <= m. */
  function NewFingerEntry(m: nat, n: int, k: int, node: Option<int>): (r: Result<FingerEntry, FingerError>)
    ensures r.Ok? <==> 0 <= n < Pow2(m) && 0 < k <= m
    ensures r.Ok? ==> r.value.node == node && r.value.interval.Valid()
  {
    if !(0 <= n < Pow2(m) && 0 < k <= m) then Err(ValueError)
    else
      var start := FingerStart(m, n, k);
      var nextStart := FingerNextStart(m, n, k);
      Ok(FingerEntry(start, nextStart, NewModRange(start, nextStart, Pow2(m)), node))
  }

  /** Entry k starts 2^(k-1) identifiers clockwise of n. */
  lemma FingerStartOffset(m: nat, n: int, k: nat)
    requires 1 <= k <= m
    ensures 0 <= FingerStart(m, n, k) < Pow2(m)
    ensures Dist(n, FingerStart(m, n, k), Pow2(m)) == Pow2(k - 1)
  {
    Pow2Monotone(k - 1, m);
    DistNormalize(n, n + Pow2(k - 1), Pow2(m));
    DistOfOffset(n, Pow2(k - 1), Pow2(m));
  }

  /** Every entry spans 2^(k-1) identifiers: its stop is 2^(k-1) past its start. */
  lemma FingerSpan(m: nat, n: int, k: nat)
    requires 1 <= k <= m && 0 <= n < Pow2(m)
    ensures Span(FingerStart(m, n, k), FingerNextStart(m, n, k), Pow2(m)) == Pow2(k - 1)
  {
    var N := Pow2(m);
    var s := FingerStart(m, n, k);
    FingerStartOffset(m, n, k);
    if k < m {
      Pow2Monotone(k, m);
      DistNormalize(n, n + Pow2(k), N);
      DistOfOffset(n, Pow2(k), N);
      DistBetween(n, s, FingerNextStart(m, n, k), N);
    } else {
      assert Pow2(m) == 2 * Pow2(m - 1);
      DistBack(n, s, N);
    }
  }

  /** Entry k holds exactly the identifiers at clockwise distance [2^(k-1), 2^k) from n. */
  lemma FingerIntervalExact(m: nat, n: int, k: nat, x: int)
    requires 1 <= k <= m && 0 <= n < Pow2(m)
    ensures NewFingerEntry(m, n, k, None).value.interval.Covers(x) <==>
      0 <= x < Pow2(m) && Pow2(k - 1) <= Dist(n, x, Pow2(m)) < Pow2(k)
  {
    var N := Pow2(m);
    var s := FingerStart(m, n, k);
    NewModRangeCovers(s, FingerNextStart(m, n, k), N, x);
    FingerStartOffset(m, n, k);
    FingerSpan(m, n, k);
    if 0 <= x < N {
      if Dist(n, s, N) <= Dist(n, x, N) {
        DistBetween(n, s, x, N);
      } else {
        DistBetween(n, x, s, N);
        DistAdd(s, x, s, N);
        DistZero(x, s, N);
        assert Dist(s, x, N) == N - (Dist(n, s, N) - Dist(n, x, N));
        Pow2Monotone(k - 1, m);
      }
    }
  }

  /** Entry k stops where entry k+1 starts. */
  lemma FingersChain(m: nat, n: int, k: nat)
    requires 1 <= k < m && 0 <= n < Pow2(m)
    ensures NewFingerEntry(m, n, k, None).value.nextStart == NewFingerEntry(m, n, k + 1, None).value.start
  {
  }

  /** Some power of two brackets every positive distance below 2^m. */
  lemma {:induction false} Log2(m: nat, d: int) returns (k: nat)
    requires 1 <= d < Pow2(m)
    ensures 1 <= k <= m && Pow2(k - 1) <= d < Pow2(k)
  {
    if d < Pow2(m - 1) {
      k := Log2(m - 1, d);
    } else {
      k := m;
    }
  }

  lemma {:induction false} Pow2Le(j: nat, k: nat)
    requires j <= k
    ensures Pow2(j) <= Pow2(k)
  {
    if j < k {
      Pow2Monotone(j, k);
    }
  }

  /** Node n itself lies in none of its own finger intervals. */
  lemma FingerIntervalsSkipSelf(m: nat, n: int, k: nat)
    requires 0 <= n < Pow2(m) && 1 <= k <= m
    ensures !NewFingerEntry(m, n, k, None).value.interval.Covers(n)
  {
    FingerIntervalExact(m, n, k, n);
    DistZero(n, n, Pow2(m));
  }

  /** Every identifier other than n lies in some finger interval of n. */
  lemma FingerIntervalsCover(m: nat, n: int, x: int) returns (k: nat)
    requires 0 <= n < Pow2(m) && 0 <= x < Pow2(m) && x != n
    ensures 1 <= k <= m && NewFingerEntry(m, n, k, None).value.interval.Covers(x)
  {
    DistZero(n, x, Pow2(m));
    k := Log2(m, Dist(n, x, Pow2(m)));
    FingerIntervalExact(m, n, k, x);
  }

  /** No identifier lies in two finger intervals of the same node. */
  lemma FingerIntervalsDisjoint(m: nat, n: int, j: nat, k: nat, x: int)
    requires 0 <= n < Pow2(m) && 1 <= j < k <= m
    ensures !(NewFingerEntry(m, n, j, None).value.interval.Covers(x) &&
              NewFingerEntry(m, n, k, None).value.interval.Covers(x))
  {
    FingerIntervalExact(m, n, j, x);
    FingerIntervalExact(m, n, k, x);
    Pow2Le(j, k - 1);
  }

  /**
   * The doctests of FingerEntry, which assume m = 3, and two constructions
   * the constructor's guard rejects: k = 0, and n = 8 outside a ring of 2^3.
   */
  lemma Doctests()
    ensures var fe := NewFingerEntry(3, 0, 1, None).value;
      fe.interval.Covers(1) && !fe.interval.Covers(2)
    ensures var fe := NewFingerEntry(3, 3, 3, None).value;
      fe.interval.Covers(7) && fe.interval.Covers(0) && fe.interval.Covers(2) && !fe.interval.Covers(3)
    ensures NewFingerEntry(3, 0, 0, None).Err? && NewFingerEntry(3, 8, 1, None).Err?
  {
    assert Pow2(3) == 8 && Pow2(2) == 4 && Pow2(1) == 2 && Pow2(0) == 1;
    FingerIntervalExact(3, 0, 1, 1);
    FingerIntervalExact(3, 0, 1, 2);
    FingerIntervalExact(3, 3, 3, 7);
    FingerIntervalExact(3, 3, 3, 0);
    FingerIntervalExact(3, 3, 3, 2);
    FingerIntervalExact(3, 3, 3, 3);
  }
}
