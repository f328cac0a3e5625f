/**
 * ModRange: a half-open interval [start, stop) on a ring of `divisor`
 * identifiers that wraps around 0, with membership, length and clockwise
 * iteration (lab4/chord_node.py, classes ModRange and ModRangeIter).
 *
 * The source represents the interval by one or two Python `range`s; the
 * model keeps that representation (Intervals) and proves it equal to the
 * walk around the ring: x is a member iff it is met walking clockwise from
 * start before reaching stop, and an interval whose two ends coincide is the
 * whole ring.
 */
module ModRanges {
  import opened Wrappers
  import opened RingMath

  /** One Python range(lo, hi). */
  datatype Interval = Interval(lo: int, hi: int)
  {
    function Length(): int { if lo <= hi then hi - lo else 0 }
  }

  /** A constructed ModRange: both ends already reduced modulo the divisor. */
  datatype ModRange = ModRange(start: int, stop: int, divisor: int)
  {
    predicate Valid()
    {
      divisor > 0 && 0 <= start < divisor && 0 <= stop < divisor
    }

    /**
     * The Python ranges the constructor builds: one range when the interval
     * does not wrap (or wraps exactly onto 0), two when it does.
     */
    function Intervals(): seq<Interval>
      requires Valid()
    {
      if start < stop then [Interval(start, stop)]
      else if stop == 0 then [Interval(start, divisor)]
      else [Interval(start, divisor), Interval(0, stop)]
    }

    /** Specification of membership: met walking clockwise from start before stop. */
    predicate Covers(x: int)
      requires Valid()
    {
      0 <= x < divisor && Dist(start, x, divisor) < Span(start, stop, divisor)
    }

    /** Specification of iteration: the identifiers clockwise from start. */
    function Elements(): seq<int>
      requires Valid()
    {
      seq(Span(start, stop, divisor), k => (start + k) % divisor)
    }
  }

  /** ModRange(start, stop, divisor): both ends are reduced modulo the divisor. */
  function NewModRange(start: int, stop: int, divisor: int): (mr: ModRange)
    requires divisor > 0
    ensures mr.Valid() && mr.divisor == divisor
    ensures Dist(start, mr.start, divisor) == 0 && Dist(stop, mr.stop, divisor) == 0
  {
    DistNormalize(start, start, divisor);
    DistNormalize(stop, stop, divisor);
    ModRange(start % divisor, stop % divisor, divisor)
  }

  /** Membership in a freshly built ModRange, stated on the unreduced ends. */
  lemma NewModRangeCovers(start: int, stop: int, divisor: int, x: int)
    requires divisor > 0
    ensures NewModRange(start, stop, divisor).Covers(x) <==>
      0 <= x < divisor && Dist(start, x, divisor) < Span(start, stop, divisor)
  {
    DistNormalize(start, x, divisor);
    DistNormalize(start, stop, divisor);
    DistNormalize(start % divisor, stop, divisor);
  }

  /** The stop of a range is outside it, unless the range is the whole ring. */
  lemma StopExcluded(start: int, stop: int, divisor: int)
    requires divisor > 0
    ensures NewModRange(start, stop, divisor).Covers(stop) ==> Dist(start, stop, divisor) == 0
  {
    NewModRangeCovers(start, stop, divisor, stop);
  }

  /** The ranges hold exactly the identifiers met on the clockwise walk. */
  lemma {:induction false} IntervalsWalk(mr: ModRange, x: int)
    requires mr.Valid()
    ensures (exists k :: 0 <= k < |mr.Intervals()| && mr.Intervals()[k].lo <= x < mr.Intervals()[k].hi)
            <==> mr.Covers(x)
  {
    var d := mr.divisor;
    var ivs := mr.Intervals();
    DistConcrete(mr.start, mr.stop, d);
    if 0 <= x < d {
      DistConcrete(mr.start, x, d);
    }
    if mr.Covers(x) {
      if mr.start < mr.stop || mr.stop == 0 || x >= mr.start {
        assert ivs[0].lo <= x < ivs[0].hi;
      } else {
        assert ivs[1].lo <= x < ivs[1].hi;
      }
    }
  }

  /** The ranges' lengths add up to the span of the walk. */
  lemma IntervalsLength(mr: ModRange)
    requires mr.Valid()
    ensures |mr.Intervals()| == 1 ==> mr.Intervals()[0].Length() == Span(mr.start, mr.stop, mr.divisor)
    ensures |mr.Intervals()| == 2 ==>
      mr.Intervals()[0].Length() + mr.Intervals()[1].Length() == Span(mr.start, mr.stop, mr.divisor)
  {
    DistConcrete(mr.start, mr.stop, mr.divisor);
  }

  /** `id in ModRange`: scan the ranges, stopping at the first that holds id. */
  method Contains(mr: ModRange, id: int) returns (found: bool)
    requires mr.Valid()
    ensures found <==> mr.Covers(id)
  {
    var ivs := mr.Intervals();
    var k := 0;
    while k < |ivs|
      invariant 0 <= k <= |ivs|
      invariant forall j :: 0 <= j < k ==> !(ivs[j].lo <= id < ivs[j].hi)
    {
      if ivs[k].lo <= id < ivs[k].hi {
        IntervalsWalk(mr, id);
        return true;
      }
      k := k + 1;
    }
    IntervalsWalk(mr, id);
    return false;
  }

  /** `len(ModRange)`: the ranges' lengths summed. */
  method Length(mr: ModRange) returns (total: int)
    requires mr.Valid()
    ensures total == if mr.start == mr.stop then mr.divisor
                     else (mr.stop - mr.start) % mr.divisor
    ensures total == |mr.Elements()|
  {
    var ivs := mr.Intervals();
    total := 0;
    var k := 0;
    while k < |ivs|
      invariant 0 <= k <= |ivs|
      invariant total == if k == 0 then 0 else if k == 1 then ivs[0].Length()
                         else ivs[0].Length() + ivs[1].Length()
    {
      total := total + ivs[k].Length();
      k := k + 1;
    }
    IntervalsLength(mr);
    DistZero(mr.start, mr.stop, mr.divisor);
  }

  /** The k-th step of the walk is the identifier at distance k from start. */
  lemma ElementAt(mr: ModRange, k: int)
    requires mr.Valid() && 0 <= k < |mr.Elements()|
    ensures 0 <= mr.Elements()[k] < mr.divisor
    ensures Dist(mr.start, mr.Elements()[k], mr.divisor) == k
  {
    DistNormalize(mr.start, mr.start + k, mr.divisor);
    DistOfOffset(mr.start, k, mr.divisor);
  }

  /** Every member is met on the walk, at its distance from start. */
  lemma MemberIsElement(mr: ModRange, x: int)
    requires mr.Valid() && mr.Covers(x)
    ensures mr.Elements()[Dist(mr.start, x, mr.divisor)] == x
  {
    var d := mr.divisor;
    var k := Dist(mr.start, x, d);
    var q := (x - mr.start) / d;
    assert x - mr.start == q * d + k;
    ModUnique(mr.start + k, d, -q, x);
  }

  /** The walk visits every member, and only members. */
  lemma {:induction false} ElementsAreMembers(mr: ModRange, x: int)
    requires mr.Valid()
    ensures x in mr.Elements() <==> mr.Covers(x)
  {
    var e := mr.Elements();
    if x in e {
      var k :| 0 <= k < |e| && e[k] == x;
      ElementAt(mr, k);
    }
    if mr.Covers(x) {
      MemberIsElement(mr, x);
    }
  }

  /** The walk visits each member exactly once. */
  lemma {:induction false} ElementsDistinct(mr: ModRange, i: int, j: int)
    requires mr.Valid()
    requires 0 <= i < j < |mr.Elements()|
    ensures mr.Elements()[i] != mr.Elements()[j]
  {
    ElementAt(mr, i);
    ElementAt(mr, j);
  }

  /** Iterator over a ModRange: i selects the range, j the position inside it. */
  class ModRangeIter {
    const mr: ModRange
    var i: int
    var j: int

    ghost predicate Valid()
      reads this
    {
      && mr.Valid()
      && 0 <= i < |mr.Intervals()|
      && -1 <= j < mr.Intervals()[i].Length()
      && (j == -1 ==> i == 0)
    }

    /** How many identifiers the iterator has produced so far. */
    ghost function Position(): int
      reads this
      requires Valid()
    {
      (if i == 0 then 0 else mr.Intervals()[0].Length()) + j + 1
    }

    constructor (mr: ModRange, i: int, j: int)
      requires mr.Valid()
      requires 0 <= i < |mr.Intervals()| && -1 <= j < mr.Intervals()[i].Length() && (j == -1 ==> i == 0)
      ensures Valid() && this.mr == mr && this.i == i && this.j == j
    {
      this.mr, this.i, this.j := mr, i, j;
    }

    /** `__next__`: the next identifier clockwise, or None for StopIteration. */
    method Next() returns (r: Option<int>)
      requires Valid()
      modifies this
      ensures Valid()
      ensures old(Position()) == |mr.Elements()| ==> r == None && i == old(i) && j == old(j)
      ensures old(Position()) < |mr.Elements()| ==>
        r == Some(mr.Elements()[old(Position())]) && Position() == old(Position()) + 1
    {
      var ivs := mr.Intervals();
      IntervalsLength(mr);
      DistConcrete(mr.start, mr.stop, mr.divisor);
      if j == ivs[i].Length() - 1 {
        if i == |ivs| - 1 {
          return None;
        } else {
          i := i + 1;
          j := 0;
        }
      } else {
        j := j + 1;
      }
      r := Some(ivs[i].lo + j);
      var p := Position() - 1;
      if i == 0 {
        ModUnique(mr.start + p, mr.divisor, 0, ivs[i].lo + j);
      } else {
        ModUnique(mr.start + p, mr.divisor, 1, ivs[i].lo + j);
      }
    }
  }

  /** `[i for i in mr]`: run a fresh iterator to exhaustion. */
  method Iterate(mr: ModRange) returns (xs: seq<int>)
    requires mr.Valid()
    ensures xs == mr.Elements()
  {
    var it := new ModRangeIter(mr, 0, -1);
    xs := [];
    while true
      invariant it.Valid() && it.mr == mr
      invariant 0 <= it.Position() <= |mr.Elements()|
      invariant xs == mr.Elements()[..it.Position()]
      decreases |mr.Elements()| - it.Position()
    {
      var r := it.Next();
      if r.None? {
        break;
      }
      xs := xs + [r.value];
    }
  }

  /** The doctests of ModRange. */
  lemma Doctests()
    ensures var mr := NewModRange(1, 4, 100);
      mr.Covers(1) && mr.Covers(2) && !mr.Covers(4) && mr.Elements() == [1, 2, 3]
    ensures var mr := NewModRange(97, 2, 100);
      mr.Covers(0) && mr.Covers(99) && !mr.Covers(2) && mr.Covers(97)
      && mr.Elements() == [97, 98, 99, 0, 1]
    ensures NewModRange(0, 0, 5).Elements() == [0, 1, 2, 3, 4]
  {
  }
}
