/**
 * `whisper_write_value` on the archives of one file: align the timestamp, write
 * the finest archive, then propagate down the chain of coarser ones.  The value
 * type is a parameter: 64-bit patterns in the file, reals in the aggregate laws.
 */
module Engine {
  import opened Arith
  import opened Words
  import opened Ring
  import opened Window

  /** How a file aggregates: the function applied to known values, and its x-files factor. */
  datatype Policy<!V> = Policy(aggregate: seq<V> -> V, xff: real)

  /** The archives of a file, finest first; each covers a window of the next. */
  predicate Levels(archives: seq<Archive>) {
    && archives != []
    && (forall k :: 0 <= k < |archives| ==> Sound(archives[k]) && In32Bits(archives[k]))
    && (forall k :: 1 <= k < |archives| ==> Covers(archives[k - 1], archives[k]))
  }

  predicate Shaped<V>(archives: seq<Archive>, rings: seq<seq<Point<V>>>) {
    && |rings| == |archives|
    && (forall k :: 0 <= k < |rings| ==> |rings[k]| == archives[k].points)
  }

  /** The source divides as integers before comparing with the x-files factor. */
  predicate Passes(known: nat, n: int, xff: real)
    requires 0 < n
  {
    (known / n) as real >= xff
  }

  function Align(t: int, step: int): int
    requires 0 < step
  {
    t - t % step
  }

  /** The aligned timestamp is the multiple of the step whose period `t` lies in. */
  lemma AlignIs(t: int, step: int, a: int)
    requires 0 < step
    ensures Align(t, step) == a <==> a % step == 0 && a <= t < a + step
  {
    var m := t - t % step;
    assert m == (t / step) * step;
    MultipleHasNoRemainder(t / step, step);
    if a % step == 0 && a <= t < a + step {
      assert a == (a / step) * step;
      QuotientUnique(t, step, a / step, t - a);
    }
  }

  /** The coarser ring after timestamp `t` was propagated to it. */
  function Propagate<V>(policy: Policy<V>, hi: Archive, lo: Archive,
                        fine: seq<Point<V>>, coarse: seq<Point<V>>, t: int): (r: seq<Point<V>>)
    requires Covers(hi, lo) && |fine| == hi.points && |coarse| == lo.points
    ensures |r| == lo.points
  {
    var known := Known(fine, hi, lo, t);
    if Passes(|known|, Count(hi, lo), policy.xff) then WritePoint(coarse, lo, Point(t, policy.aggregate(known)))
    else coarse
  }

  /** The propagation loop from archive `k` on; it stops at the first archive `t` is no multiple of. */
  function PropagateFrom<V>(policy: Policy<V>, archives: seq<Archive>, rings: seq<seq<Point<V>>>,
                            k: int, t: int): (r: seq<seq<Point<V>>>)
    requires Levels(archives) && Shaped(archives, rings) && 1 <= k <= |archives|
    ensures Shaped(archives, r)
    decreases |archives| - k
  {
    if k == |archives| || t % archives[k].step != 0 then rings
    else
      var r := Propagate(policy, archives[k - 1], archives[k], rings[k - 1], rings[k], t);
      PropagateFrom(policy, archives, rings[k := r], k + 1, t)
  }

  function WriteAligned<V>(policy: Policy<V>, archives: seq<Archive>, rings: seq<seq<Point<V>>>,
                           p: Point<V>): (r: seq<seq<Point<V>>>)
    requires Levels(archives) && Shaped(archives, rings)
    ensures Shaped(archives, r)
  {
    PropagateFrom(policy, archives, rings[0 := WritePoint(rings[0], archives[0], p)], 1, p.timestamp)
  }

  function WriteValue<V>(policy: Policy<V>, archives: seq<Archive>, rings: seq<seq<Point<V>>>,
                         t: int, v: V): (r: seq<seq<Point<V>>>)
    requires Levels(archives) && Shaped(archives, rings)
    ensures Shaped(archives, r)
  {
    WriteAligned(policy, archives, rings, Point(Align(t, archives[0].step), v))
  }

  /** A loop with no early exit: each archive is visited and written if `t` is its multiple. */
  function ScanFrom<V>(policy: Policy<V>, archives: seq<Archive>, rings: seq<seq<Point<V>>>,
                       k: int, t: int): (r: seq<seq<Point<V>>>)
    requires Levels(archives) && Shaped(archives, rings) && 1 <= k <= |archives|
    ensures Shaped(archives, r)
    decreases |archives| - k
  {
    if k == |archives| then rings
    else if t % archives[k].step != 0 then ScanFrom(policy, archives, rings, k + 1, t)
    else
      var r := Propagate(policy, archives[k - 1], archives[k], rings[k - 1], rings[k], t);
      ScanFrom(policy, archives, rings[k := r], k + 1, t)
  }

  /** Among the archives propagated to, each one's seconds per point divides the next one's. */
  predicate CoarserDivide(archives: seq<Archive>)
    requires Levels(archives)
  {
    forall k :: 2 <= k < |archives| ==> archives[k].step % archives[k - 1].step == 0
  }

  /** The loop of the source, standing before archive `k`, gets as far as archive `i`. */
  predicate ReachedFrom(archives: seq<Archive>, t: int, k: int, i: int)
    requires Levels(archives) && 1 <= k <= i < |archives|
  {
    forall j :: k <= j <= i ==> t % archives[j].step == 0
  }

  lemma {:induction false} ReachedOnChain(archives: seq<Archive>, t: int, k: int)
    requires Levels(archives) && CoarserDivide(archives) && 1 <= k < |archives| && t % archives[k].step == 0
    ensures ReachedFrom(archives, t, 1, k)
  {
    if 2 <= k {
      DividesTransitive(archives[k - 1].step, archives[k].step, t);
      ReachedOnChain(archives, t, k - 1);
    }
  }

  /** For timestamp `t` the loop gets to every archive whose step divides it. */
  ghost predicate ReachesAll(archives: seq<Archive>, t: int)
    requires Levels(archives)
  {
    forall k :: 1 <= k < |archives| ==> (ReachedFrom(archives, t, 1, k) <==> t % archives[k].step == 0)
  }

  /**
   * Past the first, the least 32-bit timestamp of the finest archive that an
   * archive's step divides is a multiple of the step before it.
   */
  predicate LeastMeetsEarlier(archives: seq<Archive>)
    requires Levels(archives)
  {
    forall k :: 2 <= k < |archives| ==>
      var m := Lcm(archives[0].step, archives[k].step); m < U32 ==> m % archives[k - 1].step == 0
  }

  lemma {:induction false} ReachedByLcm(archives: seq<Archive>, t: int, k: int)
    requires Levels(archives) && LeastMeetsEarlier(archives) && 1 <= k < |archives|
    requires 0 <= t < U32 && t % archives[0].step == 0 && t % archives[k].step == 0
    ensures ReachedFrom(archives, t, 1, k)
  {
    if 2 <= k {
      var m := Lcm(archives[0].step, archives[k].step);
      CommonMultiple(archives[0].step, archives[k].step, t);
      if t == 0 {
        assert forall j :: 1 <= j <= k ==> t % archives[j].step == 0;
      } else {
        MultipleAtLeast(t, m);
        DividesTransitive(archives[k - 1].step, m, t);
        ReachedByLcm(archives, t, k - 1);
      }
    }
  }

  /**
   * The loop reaches every archive it should, for every timestamp it can be
   * given, exactly if the least common multiples meet the steps before them.
   */
  lemma EarlyExitExactlyWhen(archives: seq<Archive>)
    requires Levels(archives)
    ensures (forall t :: 0 <= t < U32 && t % archives[0].step == 0 ==> ReachesAll(archives, t))
       <==> LeastMeetsEarlier(archives)
  {
    if LeastMeetsEarlier(archives) {
      forall t | 0 <= t < U32 && t % archives[0].step == 0 ensures ReachesAll(archives, t) {
        forall k | 1 <= k < |archives| && t % archives[k].step == 0 ensures ReachedFrom(archives, t, 1, k) {
          ReachedByLcm(archives, t, k);
        }
      }
    }
    if forall t :: 0 <= t < U32 && t % archives[0].step == 0 ==> ReachesAll(archives, t) {
      forall k | 2 <= k < |archives| && Lcm(archives[0].step, archives[k].step) < U32
        ensures Lcm(archives[0].step, archives[k].step) % archives[k - 1].step == 0
      {
        var m := Lcm(archives[0].step, archives[k].step);
        assert ReachesAll(archives, m);
        assert ReachedFrom(archives, m, 1, k);
      }
    }
  }

  /** A divisibility chain is one way to meet them. */
  lemma ChainMeetsEarlier(archives: seq<Archive>)
    requires Levels(archives) && CoarserDivide(archives)
    ensures LeastMeetsEarlier(archives)
  {
    forall k | 2 <= k < |archives| ensures Lcm(archives[0].step, archives[k].step) % archives[k - 1].step == 0 {
      DividesTransitive(archives[k - 1].step, archives[k].step, Lcm(archives[0].step, archives[k].step));
    }
  }

  /** Steps 4, 6 and 9 are no chain, and the loop reaches all it should. */
  lemma OffChainCanReachAll()
    ensures var archives := [Archive(52, 4, 6), Archive(124, 6, 6), Archive(196, 9, 6)];
            Levels(archives) && !CoarserDivide(archives) && LeastMeetsEarlier(archives)
  {
    var archives := [Archive(52, 4, 6), Archive(124, 6, 6), Archive(196, 9, 6)];
    assert archives[2].step % archives[1].step != 0;
    assert Lcm(4, 9) % 36 == 0 by {
      CommonMultiple(4, 9, Lcm(4, 9));
      ThirtySix(Lcm(4, 9));
    }
    DividesTransitive(6, 36, Lcm(4, 9));
  }

  lemma ThirtySix(x: int)
    requires x % 4 == 0 && x % 9 == 0
    ensures x % 36 == 0
  {
  }

  lemma ChainReachesAll(archives: seq<Archive>, t: int)
    requires Levels(archives) && CoarserDivide(archives)
    ensures ReachesAll(archives, t)
  {
    forall k | 1 <= k < |archives| && t % archives[k].step == 0 ensures ReachedFrom(archives, t, 1, k) {
      ReachedOnChain(archives, t, k);
    }
  }

  /** No step divides `t` after one that does not. */
  ghost predicate NoneAfterExit(archives: seq<Archive>, t: int)
    requires Levels(archives)
  {
    forall i, k :: 1 <= i < k < |archives| && t % archives[i].step != 0 ==> t % archives[k].step != 0
  }

  lemma ReachesAllMeans(archives: seq<Archive>, t: int)
    requires Levels(archives) && ReachesAll(archives, t)
    ensures NoneAfterExit(archives, t)
  {
    forall i, k | 1 <= i < k < |archives| && t % archives[i].step != 0 ensures t % archives[k].step != 0 {
      assert !ReachedFrom(archives, t, 1, k);
    }
  }

  lemma {:induction false} ScanPastExit<V>(policy: Policy<V>, archives: seq<Archive>, rings: seq<seq<Point<V>>>,
                                           k: int, t: int)
    requires Levels(archives) && NoneAfterExit(archives, t) && Shaped(archives, rings) && 2 <= k <= |archives|
    requires t % archives[k - 1].step != 0
    ensures ScanFrom(policy, archives, rings, k, t) == rings
    decreases |archives| - k
  {
    if k < |archives| {
      ScanPastExit(policy, archives, rings, k + 1, t);
    }
  }

  lemma {:induction false} ExitIsScan<V>(policy: Policy<V>, archives: seq<Archive>, rings: seq<seq<Point<V>>>,
                                         k: int, t: int)
    requires Levels(archives) && NoneAfterExit(archives, t) && Shaped(archives, rings) && 1 <= k <= |archives|
    ensures PropagateFrom(policy, archives, rings, k, t) == ScanFrom(policy, archives, rings, k, t)
    decreases |archives| - k
  {
    if k < |archives| {
      if t % archives[k].step == 0 {
        var r := Propagate(policy, archives[k - 1], archives[k], rings[k - 1], rings[k], t);
        ExitIsScan(policy, archives, rings[k := r], k + 1, t);
      } else {
        ScanPastExit(policy, archives, rings, k + 1, t);
      }
    }
  }

  /** Early exit equals full scan for every timestamp for which the loop reaches all it should. */
  lemma {:induction false} EarlyExitIsFullScan<V>(policy: Policy<V>, archives: seq<Archive>, rings: seq<seq<Point<V>>>, t: int)
    requires Levels(archives) && ReachesAll(archives, t) && Shaped(archives, rings)
    ensures PropagateFrom(policy, archives, rings, 1, t) == ScanFrom(policy, archives, rings, 1, t)
  {
    ReachesAllMeans(archives, t);
    ExitIsScan(policy, archives, rings, 1, t);
  }

  /** Off a chain the loop can stop short: with 1, 2 and 3 seconds per point, timestamp 3 never reaches the last. */
  lemma EarlyExitCanStopShort()
    ensures var archives := [Archive(52, 1, 4), Archive(100, 2, 4), Archive(148, 3, 4)];
            Levels(archives) && !ReachedFrom(archives, 3, 1, 2) && 3 % archives[2].step == 0
  {
    var archives := [Archive(52, 1, 4), Archive(100, 2, 4), Archive(148, 3, 4)];
    assert 3 % archives[1].step != 0;
  }

  // What one call does to each archive.

  /** Archives before the loop index are left alone. */
  lemma {:induction false} ScanLeavesEarlier<V>(policy: Policy<V>, archives: seq<Archive>,
                                                rings: seq<seq<Point<V>>>, k: int, t: int, j: int)
    requires Levels(archives) && Shaped(archives, rings) && 1 <= k <= |archives| && 0 <= j < k
    ensures ScanFrom(policy, archives, rings, k, t)[j] == rings[j]
    decreases |archives| - k
  {
    if k < |archives| {
      if t % archives[k].step != 0 {
        ScanLeavesEarlier(policy, archives, rings, k + 1, t, j);
      } else {
        var r := Propagate(policy, archives[k - 1], archives[k], rings[k - 1], rings[k], t);
        ScanLeavesEarlier(policy, archives, rings[k := r], k + 1, t, j);
      }
    }
  }

  lemma {:induction false} ScanAt<V>(policy: Policy<V>, archives: seq<Archive>,
                                     rings: seq<seq<Point<V>>>, k: int, t: int, j: int)
    requires Levels(archives) && Shaped(archives, rings) && 1 <= k <= j < |archives|
    ensures var r := ScanFrom(policy, archives, rings, k, t);
            r[j] == if t % archives[j].step != 0 then rings[j]
                    else Propagate(policy, archives[j - 1], archives[j], r[j - 1], rings[j], t)
    decreases |archives| - k
  {
    var next := if t % archives[k].step != 0 then rings
                else rings[k := Propagate(policy, archives[k - 1], archives[k], rings[k - 1], rings[k], t)];
    if k < j {
      ScanAt(policy, archives, next, k + 1, t, j);
    } else {
      ScanLeavesEarlier(policy, archives, next, k + 1, t, j);
      ScanLeavesEarlier(policy, archives, next, k + 1, t, j - 1);
    }
  }

  /** What a whole call leaves in each archive of a divisibility chain. */
  lemma WriteAt<V>(policy: Policy<V>, archives: seq<Archive>, rings: seq<seq<Point<V>>>, p: Point<V>, k: int)
    requires Levels(archives) && CoarserDivide(archives) && Shaped(archives, rings) && 0 <= k < |archives|
    ensures var r := WriteAligned(policy, archives, rings, p);
            r[k] == if k == 0 then WritePoint(rings[0], archives[0], p)
                    else if p.timestamp % archives[k].step != 0 then rings[k]
                    else Propagate(policy, archives[k - 1], archives[k], r[k - 1], rings[k], p.timestamp)
  {
    var first := rings[0 := WritePoint(rings[0], archives[0], p)];
    ChainReachesAll(archives, p.timestamp);
    EarlyExitIsFullScan(policy, archives, first, p.timestamp);
    if k == 0 {
      ScanLeavesEarlier(policy, archives, first, 1, p.timestamp, 0);
    } else {
      ScanAt(policy, archives, first, 1, p.timestamp, k);
    }
  }

  /** Nothing but the slot of timestamp `t` changes, and it changes to a point of that timestamp. */
  ghost predicate OneSlot<V>(ring: seq<Point<V>>, ring': seq<Point<V>>, a: Archive, t: int)
    requires Sound(a) && |ring| == a.points
  {
    && |ring'| == |ring|
    && (forall i :: 0 <= i < |ring| && i != WriteSlot(ring, a, t) ==> ring'[i] == ring[i])
    && (ring' == ring || ring'[WriteSlot(ring, a, t)].timestamp == t)
  }

  /** Every archive changes in one slot at most, on a divisibility chain or off it. */
  lemma {:induction false} PropagateFromFrame<V>(policy: Policy<V>, archives: seq<Archive>,
                                                 rings: seq<seq<Point<V>>>, k: int, t: int, j: int)
    requires Levels(archives) && Shaped(archives, rings) && 1 <= k <= |archives| && 0 <= j < |archives|
    ensures var r := PropagateFrom(policy, archives, rings, k, t)[j];
            OneSlot(rings[j], r, archives[j], t) && (j < k || t % archives[j].step != 0 ==> r == rings[j])
    decreases |archives| - k
  {
    if k < |archives| && t % archives[k].step == 0 {
      var r := Propagate(policy, archives[k - 1], archives[k], rings[k - 1], rings[k], t);
      PropagateFromFrame(policy, archives, rings[k := r], k + 1, t, j);
    }
  }

  /** A whole call changes at most one slot of each archive, and none of an archive `t` is no multiple of. */
  lemma WriteFrame<V>(policy: Policy<V>, archives: seq<Archive>, rings: seq<seq<Point<V>>>, p: Point<V>, j: int)
    requires Levels(archives) && Shaped(archives, rings) && 0 <= j < |archives|
    ensures OneSlot(rings[j], WriteAligned(policy, archives, rings, p)[j], archives[j], p.timestamp)
    ensures 0 < j && p.timestamp % archives[j].step != 0 ==> WriteAligned(policy, archives, rings, p)[j] == rings[j]
  {
    PropagateFromFrame(policy, archives, rings[0 := WritePoint(rings[0], archives[0], p)], 1, p.timestamp, j);
  }

  /** Slot writes made by offering the window that `t` closes to the next archive. */
  function OfferWrites<V>(policy: Policy<V>, hi: Archive, lo: Archive, fine: seq<Point<V>>, t: int): nat
    requires Covers(hi, lo) && |fine| == hi.points
  {
    if Passes(|Known(fine, hi, lo, t)|, Count(hi, lo), policy.xff) then 1 else 0
  }

  /** Slot writes made by the propagation loop from archive `k` on. */
  function WritesFrom<V>(policy: Policy<V>, archives: seq<Archive>, rings: seq<seq<Point<V>>>, k: int, t: int): (n: nat)
    requires Levels(archives) && Shaped(archives, rings) && 1 <= k <= |archives|
    ensures n <= |archives| - k
    decreases |archives| - k
  {
    if k == |archives| || t % archives[k].step != 0 then 0
    else
      var hi, lo := archives[k - 1], archives[k];
      OfferWrites(policy, hi, lo, rings[k - 1], t)
      + WritesFrom(policy, archives, rings[k := Propagate(policy, hi, lo, rings[k - 1], rings[k], t)], k + 1, t)
  }

  /** Slot writes made by one whole call, its own and those made by propagation. */
  function SlotWrites<V>(policy: Policy<V>, archives: seq<Archive>, rings: seq<seq<Point<V>>>, t: int, v: V): (n: nat)
    requires Levels(archives) && Shaped(archives, rings)
    ensures 1 <= n <= |archives|
  {
    var p := Point(Align(t, archives[0].step), v);
    1 + WritesFrom(policy, archives, rings[0 := WritePoint(rings[0], archives[0], p)], 1, p.timestamp)
  }

  /** Archive `i` is got to from archive `k` on, and takes a point from the finer ring as the call leaves it, `r`. */
  predicate Takes<V>(policy: Policy<V>, archives: seq<Archive>, r: seq<seq<Point<V>>>, k: int, t: int, i: int)
    requires Levels(archives) && Shaped(archives, r) && 1 <= k <= i < |archives|
  {
    && ReachedFrom(archives, t, k, i)
    && Passes(|Known(r[i - 1], archives[i - 1], archives[i], t)|, Count(archives[i - 1], archives[i]), policy.xff)
  }

  ghost function Takers<V>(policy: Policy<V>, archives: seq<Archive>, r: seq<seq<Point<V>>>, k: int, t: int): set<int>
    requires Levels(archives) && Shaped(archives, r) && 1 <= k
  {
    set i | k <= i < |archives| && Takes(policy, archives, r, k, t, i)
  }

  lemma {:induction false} WritesAreTakers<V>(policy: Policy<V>, archives: seq<Archive>, rings: seq<seq<Point<V>>>,
                                              k: int, t: int)
    requires Levels(archives) && Shaped(archives, rings) && 1 <= k <= |archives|
    ensures WritesFrom(policy, archives, rings, k, t)
         == |Takers(policy, archives, PropagateFrom(policy, archives, rings, k, t), k, t)|
    decreases |archives| - k
  {
    if k < |archives| && t % archives[k].step == 0 {
      var next := rings[k := Propagate(policy, archives[k - 1], archives[k], rings[k - 1], rings[k], t)];
      WritesAreTakers(policy, archives, next, k + 1, t);
      PropagateFromFrame(policy, archives, next, k + 1, t, k - 1);
      TakersStep(policy, archives, PropagateFrom(policy, archives, rings, k, t), k, t);
    } else {
      assert Takers(policy, archives, rings, k, t) == {};
    }
  }

  lemma TakesStep<V>(policy: Policy<V>, archives: seq<Archive>, r: seq<seq<Point<V>>>, k: int, t: int, i: int)
    requires Levels(archives) && Shaped(archives, r) && 1 <= k <= i < |archives| && t % archives[k].step == 0
    ensures k < i ==> (Takes(policy, archives, r, k, t, i) <==> Takes(policy, archives, r, k + 1, t, i))
    ensures Takes(policy, archives, r, k, t, k) <==>
            OfferWrites(policy, archives[k - 1], archives[k], r[k - 1], t) == 1
  {
  }

  lemma TakersStep<V>(policy: Policy<V>, archives: seq<Archive>, r: seq<seq<Point<V>>>, k: int, t: int)
    requires Levels(archives) && Shaped(archives, r) && 1 <= k < |archives| && t % archives[k].step == 0
    ensures |Takers(policy, archives, r, k, t)|
         == OfferWrites(policy, archives[k - 1], archives[k], r[k - 1], t) + |Takers(policy, archives, r, k + 1, t)|
  {
    var all, rest := Takers(policy, archives, r, k, t), Takers(policy, archives, r, k + 1, t);
    forall i | k < i < |archives| ensures i in all <==> i in rest {
      TakesStep(policy, archives, r, k, t, i);
    }
    TakesStep(policy, archives, r, k, t, k);
    assert all - {k} == rest;
    OneMore(all, rest, k, Takes(policy, archives, r, k, t, k));
  }

  lemma OneMore(all: set<int>, rest: set<int>, k: int, more: bool)
    requires k !in rest && (k in all <==> more) && all - {k} == rest
    ensures |all| == |rest| + if more then 1 else 0
  {
    if more {
      assert all == {k} + rest;
    } else {
      assert all == all - {k};
    }
  }

  /** A call makes one slot write of its own and one for each archive it gets to that takes a point. */
  lemma {:induction false} SlotWritesAre<V>(policy: Policy<V>, archives: seq<Archive>, rings: seq<seq<Point<V>>>, t: int, v: V)
    requires Levels(archives) && Shaped(archives, rings)
    ensures SlotWrites(policy, archives, rings, t, v)
         == 1 + |Takers(policy, archives, WriteValue(policy, archives, rings, t, v), 1, Align(t, archives[0].step))|
  {
    var p := Point(Align(t, archives[0].step), v);
    WritesAreTakers(policy, archives, rings[0 := WritePoint(rings[0], archives[0], p)], 1, p.timestamp);
  }

  // Where the slot model speaks for the bytes of a file.

  /** The window that `t` closes lets a point pass to the next archive. */
  predicate Offers<V>(policy: Policy<V>, hi: Archive, lo: Archive, fine: seq<Point<V>>, t: int)
    requires Covers(hi, lo) && |fine| == hi.points
  {
    Passes(|Known(fine, hi, lo, t)|, Count(hi, lo), policy.xff)
  }

  /** Propagating is good: the window is read from slots and into the buffer, and what passes is written to a slot. */
  predicate Good<V>(policy: Policy<V>, hi: Archive, lo: Archive, fine: seq<Point<V>>, coarse: seq<Point<V>>, t: int)
    requires Covers(hi, lo) && |fine| == hi.points && |coarse| == lo.points
  {
    ReadFits(fine, hi, lo, t) && (Offers(policy, hi, lo, fine, t) ==> OnSlot(coarse, lo, t))
  }

  /** Propagating to archive `k` is good, from the finer ring as the call leaves it, `r`, to the ring as it was. */
  predicate GoodAt<V>(policy: Policy<V>, archives: seq<Archive>, rings: seq<seq<Point<V>>>, r: seq<seq<Point<V>>>,
                      t: int, k: int)
    requires Levels(archives) && Shaped(archives, rings) && Shaped(archives, r) && 1 <= k < |archives|
  {
    Good(policy, archives[k - 1], archives[k], r[k - 1], rings[k], t)
  }

  /** Every propagation the loop gets to from archive `k` on is good. */
  predicate AccessFrom<V>(policy: Policy<V>, archives: seq<Archive>, rings: seq<seq<Point<V>>>, k: int, t: int)
    requires Levels(archives) && Shaped(archives, rings) && 1 <= k <= |archives|
  {
    var r := PropagateFrom(policy, archives, rings, k, t);
    forall i :: k <= i < |archives| && ReachedFrom(archives, t, k, i) ==> GoodAt(policy, archives, rings, r, t, i)
  }

  /** Every access a call makes is to whole slots and within its buffers. */
  predicate Accessible<V>(policy: Policy<V>, archives: seq<Archive>, rings: seq<seq<Point<V>>>, p: Point<V>)
    requires Levels(archives) && Shaped(archives, rings)
  {
    var r := WriteAligned(policy, archives, rings, p);
    && OnSlot(rings[0], archives[0], p.timestamp)
    && forall k :: 1 <= k < |archives| && ReachedFrom(archives, p.timestamp, 1, k) ==>
         GoodAt(policy, archives, rings, r, p.timestamp, k)
  }

  /** A call's accesses are its first write and those of the loop after it. */
  lemma AccessAfterFirst<V>(policy: Policy<V>, archives: seq<Archive>, rings: seq<seq<Point<V>>>, p: Point<V>)
    requires Levels(archives) && Shaped(archives, rings)
    ensures Accessible(policy, archives, rings, p) <==>
            && OnSlot(rings[0], archives[0], p.timestamp)
            && AccessFrom(policy, archives, rings[0 := WritePoint(rings[0], archives[0], p)], 1, p.timestamp)
  {
    var first, r := rings[0 := WritePoint(rings[0], archives[0], p)], WriteAligned(policy, archives, rings, p);
    forall k | 1 <= k < |archives|
      ensures GoodAt(policy, archives, first, r, p.timestamp, k) <==> GoodAt(policy, archives, rings, r, p.timestamp, k)
    {
    }
  }

  /** The loop's access to archive `k`, and those after it. */
  lemma AccessStep<V>(policy: Policy<V>, archives: seq<Archive>, rings: seq<seq<Point<V>>>, k: int, t: int)
    requires Levels(archives) && Shaped(archives, rings) && 1 <= k < |archives| && t % archives[k].step == 0
    ensures var hi, lo := archives[k - 1], archives[k];
            AccessFrom(policy, archives, rings, k, t) <==>
            && Good(policy, hi, lo, rings[k - 1], rings[k], t)
            && AccessFrom(policy, archives, rings[k := Propagate(policy, hi, lo, rings[k - 1], rings[k], t)], k + 1, t)
  {
    var next := rings[k := Propagate(policy, archives[k - 1], archives[k], rings[k - 1], rings[k], t)];
    var r: seq<seq<Point<V>>> := PropagateFrom(policy, archives, rings, k, t);
    PropagateFromFrame(policy, archives, next, k + 1, t, k - 1);
    assert ReachedFrom(archives, t, k, k);
    assert GoodAt(policy, archives, rings, r, t, k) <==> Good(policy, archives[k - 1], archives[k], rings[k - 1], rings[k], t);
    forall i | k < i < |archives| ensures ReachedFrom(archives, t, k + 1, i) <==> ReachedFrom(archives, t, k, i) {
    }
    forall i | k < i < |archives|
      ensures GoodAt(policy, archives, next, r, t, i) <==> GoodAt(policy, archives, rings, r, t, i)
    {
    }
  }

  /** Every archive that is propagated from is ample for the windows read from it. */
  predicate Roomy(archives: seq<Archive>)
    requires Levels(archives)
  {
    forall k :: 1 <= k < |archives| ==> Ample(archives[k - 1], Count(archives[k - 1], archives[k]))
  }

  /** With steps of twelve seconds or more and roomy archives, no call leaves its slots or its buffers. */
  lemma RoomyAccess<V>(policy: Policy<V>, archives: seq<Archive>, rings: seq<seq<Point<V>>>, p: Point<V>)
    requires Levels(archives) && Shaped(archives, rings) && Roomy(archives)
    requires forall i :: 0 <= i < |archives| ==> POINT_SIZE <= archives[i].step
    ensures Accessible(policy, archives, rings, p)
  {
    var r: seq<seq<Point<V>>>, t := WriteAligned(policy, archives, rings, p), p.timestamp;
    CoarseStepsNeverWrap(archives[0], rings[0][0].timestamp, t);
    forall k | 1 <= k < |archives| ensures GoodAt(policy, archives, rings, r, t, k) {
      var hi, lo := archives[k - 1], archives[k];
      CoarseStepsNeverWrap(hi, r[k - 1][0].timestamp, Start(hi, lo, t));
      CoarseStepsNeverWrap(lo, rings[k][0].timestamp, t);
      AmpleFits(hi, Slot(hi, r[k - 1][0].timestamp, Start(hi, lo, t)), Count(hi, lo));
    }
  }
}
