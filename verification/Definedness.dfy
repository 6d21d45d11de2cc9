/** On which archives every run in order has a defined result. */
module Definedness {
  import opened Arith
  import opened Words
  import opened Ring
  import opened Window
  import opened Engine
  import opened Pyramid
  import opened PyramidRuns

  /** Whatever the policy, every run in order on a new file has a defined result. */
  ghost predicate AlwaysDefined(archives: seq<Archive>)
    requires Levels(archives)
  {
    forall policy: Policy<real>, rings: seq<seq<Point<real>>>, samples: seq<Point<real>> ::
      Shaped(archives, rings) && Blank(rings) && Ordered(archives[0].step, samples) ==>
        Defined(policy, archives, rings, samples)
  }

  /** Windows are shorter than their ring, and as many coarse steps as the ring has points stay inside 32 bits. */
  predicate Spread(archives: seq<Archive>)
    requires Levels(archives)
  {
    forall k :: 1 <= k < |archives| ==>
      && Count(archives[k - 1], archives[k]) < archives[k - 1].points
      && archives[k].step * archives[k - 1].points < U32
  }

  /** The archives of 60 seconds for a day and 180 seconds for a week are such. */
  lemma ShippedIsSpread(archives: seq<Archive>)
    requires archives == [Archive(40, 60, 1440), Archive(17320, 180, 3360)]
    ensures Levels(archives) && Dividing(archives) && Spread(archives)
  {
    assert Levels(archives) && Count(archives[0], archives[1]) == 3;
  }

  function NewRings(archives: seq<Archive>): (rings: seq<seq<Point<real>>>)
    requires Levels(archives)
    ensures Shaped(archives, rings) && Blank(rings)
  {
    seq(|archives|, k requires 0 <= k < |archives| => seq(archives[k].points, _ => Point(0, 0.0)))
  }

  /** A policy that lets every window pass. */
  function Lenient(): Policy<real> { Policy(vs => 0.0, 0.0) }

  lemma {:induction false} OrderedPair(step: int, p: Point<real>, q: Point<real>)
    requires 0 < step <= p.timestamp <= q.timestamp < U32 && p.timestamp % step == 0 && q.timestamp % step == 0
    ensures Ordered(step, [p, q])
  {
    assert [p, q][0] == p && [p, q][1] == q;
  }

  /** Below twelve seconds per point some run in order is not defined. */
  lemma ShortSteps(archives: seq<Archive>)
    requires Levels(archives) && archives[0].step < POINT_SIZE
    ensures !AlwaysDefined(archives)
  {
    var h := archives[0].step;
    var p, q := Point(h, 0.0), Point(h + FIRST_OVERFLOW * h, 0.0);
    MultipleHasNoRemainder(1, h);
    ModShift(h, FIRST_OVERFLOW, h);
    OrderedPair(h, p, q);
    OverflowIsUndefined(Lenient(), archives, NewRings(archives), p, q);
  }

  lemma LenientWrites(hi: Archive, lo: Archive, fine: seq<Point<real>>, coarse: seq<Point<real>>, t: int)
    requires Covers(hi, lo) && |fine| == hi.points && |coarse| == lo.points
    ensures Propagate(Lenient(), hi, lo, fine, coarse, t) == WritePoint(coarse, lo, Point(t, 0.0))
  {
    DivMonotone(0, |Known(fine, hi, lo, t)|, Count(hi, lo));
  }

  /** The first sample of a lenient run is the base of every ring whose step divides it. */
  lemma FirstBase(archives: seq<Archive>, rings: seq<seq<Point<real>>>, p: Point<real>, k: int)
    requires Levels(archives) && Dividing(archives) && Shaped(archives, rings) && Blank(rings)
    requires 0 <= k < |archives| && p.timestamp % archives[k].step == 0
    ensures WriteAligned(Lenient(), archives, rings, p)[k][0].timestamp == p.timestamp
  {
    WriteAt(Lenient(), archives, rings, p, k);
    if k > 0 {
      LenientWrites(archives[k - 1], archives[k], WriteAligned(Lenient(), archives, rings, p)[k - 1], rings[k], p.timestamp);
    }
    assert rings[k][0].timestamp == 0;
  }

  /** A second one leaves the base where it is unless it laps. */
  lemma SecondKeepsBase(archives: seq<Archive>, rings: seq<seq<Point<real>>>, p: Point<real>, k: int)
    requires Levels(archives) && Dividing(archives) && Shaped(archives, rings)
    requires 0 <= k < |archives| && p.timestamp % archives[k].step == 0
    requires WriteSlot(rings[k], archives[k], p.timestamp) == 0 ==> p.timestamp == rings[k][0].timestamp
    ensures WriteAligned(Lenient(), archives, rings, p)[k][0].timestamp == rings[k][0].timestamp
  {
    WriteAt(Lenient(), archives, rings, p, k);
    if k > 0 {
      LenientWrites(archives[k - 1], archives[k], WriteAligned(Lenient(), archives, rings, p)[k - 1], rings[k], p.timestamp);
    }
  }

  /** The timestamps of a run whose window, closed by `t`, starts in slot `j` of a ring based at `b`. */
  lemma WindowAt(hi: Archive, lo: Archive, j: int, n: int, b: int, t: int)
    requires Sound(hi) && Sound(lo) && POINT_SIZE <= hi.step && 0 < n && lo.step == n * hi.step
    requires 0 <= j && j + n <= hi.points && lo.step * hi.points < U32
    requires t == (j + 1) * lo.step && b == t - lo.step + hi.step - j * hi.step
    ensures hi.step <= b <= t < U32 && b % hi.step == 0 && t % lo.step == 0 && t % hi.step == 0
    ensures Start(hi, lo, t) == t - lo.step + hi.step && Slot(hi, b, t - lo.step + hi.step) == j
    ensures Slot(hi, b, t) == 0 ==> t == b
  {
    WindowTimes(hi.step, n, lo.step, j, hi.points);
    MultipleHasNoRemainder(j + 1, lo.step);
    WindowSlots(hi, lo, j, n, b, t);
  }

  lemma WindowSlots(hi: Archive, lo: Archive, j: int, n: int, b: int, t: int)
    requires Sound(hi) && Sound(lo) && POINT_SIZE <= hi.step && 0 <= j && 0 < n && j + n <= hi.points
    requires hi.step <= b <= t - lo.step + hi.step <= t < U32 && b % hi.step == 0
    requires t - lo.step + hi.step == b + j * hi.step && t == b + (j + n - 1) * hi.step
    ensures t % hi.step == 0 && Start(hi, lo, t) == t - lo.step + hi.step && Slot(hi, b, t - lo.step + hi.step) == j
    ensures Slot(hi, b, t) == j + n - 1 && (j + n == 1 ==> t == b)
  {
    ModShift(b, j + n - 1, hi.step);
    StartIs(hi, lo, t);
    SlotAfter(hi, b, t - lo.step + hi.step, j);
    SlotAfter(hi, b, t, j + n - 1);
  }

  /** Where the timestamps of such a run lie. */
  lemma WindowTimes(h: nat, n: nat, l: nat, j: nat, p: nat)
    requires 0 < h && 0 < n && l == n * h && j + 1 <= p && l * p < U32
    ensures var t := (j + 1) * l;
            var b := t - l + h - j * h;
            && h <= b <= t - l + h <= t < U32 && b % h == 0
            && t - l + h == b + j * h && t == b + (j + n - 1) * h
  {
    var t, z := (j + 1) * l, j * n;
    assert j * l == z * h;
    assert t == z * h + l;
    assert (z + 1 - j) * h == z * h + h - j * h;
    assert (j + n - 1) * h == j * h + n * h - h;
    MulMonotone(j + 1, p, l);
    MulMonotone(1, n, j);
    MulAtLeast(z + 1 - j, h);
    MulMonotone(0, j, h);
    MulAtLeast(n, h);
    MultipleHasNoRemainder(z + 1 - j, h);
  }

  lemma SlotAfter(a: Archive, base: int, t: int, i: int)
    requires Sound(a) && POINT_SIZE <= a.step && 0 <= base <= t < U32 && base % a.step == 0
    requires t == base + i * a.step && 0 <= i < a.points
    ensures Slot(a, base, t) == i
  {
    ModShift(base, i, a.step);
    CoarseStepsNeverWrap(a, base, t);
    Exact32(t - base);
    SlotIsHome(a, base, t);
    MultipleHasNoRemainder(i, a.step);
    MultiplesCombine(base, i * a.step, a.step);
    QuotientUnique(i, a.points, 0, i);
  }

  /** In an archive that is not ample some run in order is not defined. */
  lemma Cramped(archives: seq<Archive>, k: int)
    requires Levels(archives) && Dividing(archives) && Spread(archives) && 1 <= k < |archives|
    requires POINT_SIZE <= archives[0].step && !Ample(archives[k - 1], Count(archives[k - 1], archives[k]))
    ensures !AlwaysDefined(archives)
  {
    var hi, lo := archives[k - 1], archives[k];
    var j := Overfilled(hi, Count(hi, lo));
    var t := (j + 1) * lo.step;
    var b := t - lo.step + hi.step - j * hi.step;
    StepsGrow(archives, k - 1);
    CountIs(hi, lo);
    WindowAt(hi, lo, j, Count(hi, lo), b, t);
    DividesFirst(archives, k - 1, b);
    DividesFirst(archives, k - 1, t);
    OrderedPair(archives[0].step, Point(b, 0.0), Point(t, 0.0));
    CrampedRun(archives, NewRings(archives), k, j, b, t);
  }

  lemma {:induction false} DividesFirst(archives: seq<Archive>, k: nat, x: int)
    requires Levels(archives) && Dividing(archives) && k < |archives| && x % archives[k].step == 0
    ensures x % archives[0].step == 0
  {
    if k > 0 {
      DividesTransitive(archives[k - 1].step, archives[k].step, x);
      DividesFirst(archives, k - 1, x);
    }
  }

  lemma {:induction false} CrampedRun(archives: seq<Archive>, rings: seq<seq<Point<real>>>, k: int, j: int, b: int, t: int)
    requires Levels(archives) && Dividing(archives) && Shaped(archives, rings) && Blank(rings) && 1 <= k < |archives|
    requires !Fits(archives[k - 1], j, Count(archives[k - 1], archives[k]))
    requires b % archives[0].step == 0 && b % archives[k - 1].step == 0 && 0 < b
    requires t % archives[0].step == 0 && t % archives[k - 1].step == 0 && t % archives[k].step == 0
    requires Slot(archives[k - 1], b, Start(archives[k - 1], archives[k], t)) == j
    requires Slot(archives[k - 1], b, t) == 0 ==> t == b
    ensures !Defined(Lenient(), archives, rings, [Point(b, 0.0), Point(t, 0.0)])
  {
    var p, q := Point(b, 0.0), Point(t, 0.0);
    var r := WriteAligned(Lenient(), archives, rings, p);
    FirstBase(archives, rings, p, k - 1);
    SecondKeepsBase(archives, r, q, k - 1);
    ReachedOnChain(archives, t, k);
    assert !GoodAt(Lenient(), archives, r, WriteAligned(Lenient(), archives, r, q), t, k);
    OneSample(archives, rings, p);
    assert [p, q][..1] == [p];
  }

  lemma {:induction false} OneSample(archives: seq<Archive>, rings: seq<seq<Point<real>>>, p: Point<real>)
    requires Levels(archives) && Shaped(archives, rings) && p.timestamp % archives[0].step == 0
    ensures Run(Lenient(), archives, rings, [p]) == WriteAligned(Lenient(), archives, rings, p)
  {
    var ps := [p];
    assert ps[..0] == [];
  }

  /** Every run in order is defined, for all policies, exactly on safe archives. */
  lemma AlwaysDefinedExactlyWhen(archives: seq<Archive>)
    requires Levels(archives) && Dividing(archives) && Spread(archives)
    ensures AlwaysDefined(archives) <==> Safe(archives)
  {
    if Safe(archives) {
      forall policy: Policy<real>, rings: seq<seq<Point<real>>>, samples: seq<Point<real>>
        | Shaped(archives, rings) && Blank(rings) && Ordered(archives[0].step, samples)
        ensures Defined(policy, archives, rings, samples)
      {
        SafeRunsAreDefined(policy, archives, rings, samples);
      }
    } else if archives[0].step < POINT_SIZE {
      ShortSteps(archives);
    } else {
      forall k | 0 <= k < |archives| ensures POINT_SIZE <= archives[k].step {
        StepsGrow(archives, k);
      }
      var k :| 1 <= k < |archives| && !Ample(archives[k - 1], Count(archives[k - 1], archives[k]));
      Cramped(archives, k);
    }
  }
}
