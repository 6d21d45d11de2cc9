/**
 * What holds with no assumption on where the rings start.  With a positive
 * x-files factor only complete windows propagate, and a window is complete only
 * if every fine timestamp was found in it.  So whatever the alignment of slot 0,
 * the rings never hold a point that the pyramid does not have.
 */
module Soundness {
  import opened Arith
  import opened Words
  import opened Ring
  import opened Window
  import opened Engine
  import opened Pyramid
  import opened PyramidRuns
  import opened Aggregates

  ghost predicate Carries<V>(ring: seq<Point<V>>, t: int) {
    exists j :: 0 <= j < |ring| && ring[j].timestamp == t
  }

  /** Every point of the ring is one of `m`, and the newest timestamp is nowhere but in its slot. */
  ghost predicate Faithful<V>(ring: seq<Point<V>>, a: Archive, m: map<int, V>, now: int) {
    && Sound(a) && |ring| == a.points
    && (forall j :: 0 <= j < |ring| && ring[j].timestamp != 0 ==>
          && 0 < ring[j].timestamp <= now
          && ring[j].timestamp in m && m[ring[j].timestamp] == ring[j].value)
    && (forall j :: 0 <= j < |ring| && ring[j].timestamp == now != 0 ==> j == WriteSlot(ring, a, now))
  }

  lemma SlotOfItself(a: Archive, t: int)
    requires Sound(a)
    ensures Slot(a, t, t) == 0
  {
    QuotientUnique(0, a.step, 0, 0);
    QuotientUnique(0, Size(a), 0, 0);
  }

  /** Writing the same timestamp again goes to the same slot. */
  lemma WriteSlotStable<V>(ring: seq<Point<V>>, a: Archive, p: Point<V>)
    requires Sound(a) && |ring| == a.points && p.timestamp != 0
    ensures WriteSlot(WritePoint(ring, a, p), a, p.timestamp) == WriteSlot(ring, a, p.timestamp)
  {
    SlotOfItself(a, p.timestamp);
  }

  lemma WriteFaithful<V>(ring: seq<Point<V>>, a: Archive, m: map<int, V>, m': map<int, V>, now: int, p: Point<V>)
    requires Faithful(ring, a, m, now) && now <= p.timestamp && 0 < p.timestamp
    requires SameBut(m, m', p.timestamp) && p.timestamp in m' && m'[p.timestamp] == p.value
    ensures Faithful(WritePoint(ring, a, p), a, m', p.timestamp)
  {
    WriteSlotStable(ring, a, p);
  }

  lemma KeepFaithful<V>(ring: seq<Point<V>>, a: Archive, m: map<int, V>, m': map<int, V>, now: int, t: int)
    requires Faithful(ring, a, m, now) && now <= t && SameBut(m, m', t) && !Carries(ring, t)
    ensures Faithful(ring, a, m', t)
  {
  }

  // The number of known values depends on timestamps only.

  ghost predicate SameTimes<V>(r: seq<Point<V>>, s: seq<Point<V>>) {
    |r| == |s| && forall j :: 0 <= j < |r| ==> r[j].timestamp == s[j].timestamp
  }

  lemma {:induction false} GatherSize<V>(c: seq<Option<Point<V>>>, d: seq<Option<Point<V>>>, cur: int, step: int)
    requires |c| == |d| && forall i :: 0 <= i < |c| ==>
               (c[i].Some? <==> d[i].Some?) && (c[i].Some? ==> c[i].value.timestamp == d[i].value.timestamp)
    ensures |Gather(c, cur, step)| == |Gather(d, cur, step)|
  {
    if c != [] {
      GatherSize(c[1..], d[1..], Add32(cur, step), step);
    }
  }

  lemma KnownSize<V>(r: seq<Point<V>>, s: seq<Point<V>>, hi: Archive, lo: Archive, t: int)
    requires Covers(hi, lo) && |r| == hi.points && SameTimes(r, s)
    ensures |Known(r, hi, lo, t)| == |Known(s, hi, lo, t)|
  {
    var j := Slot(hi, r[0].timestamp, Start(hi, lo, t));
    ReadSplit(hi, j, Count(hi, lo));
    GatherSize(Cells(r, hi, j, Count(hi, lo)), Cells(s, hi, j, Count(hi, lo)), Start(hi, lo, t), hi.step);
  }

  /** A window counted complete agrees cell by cell with any map its cells come from. */
  lemma {:induction false} CompleteAgrees<V>(cells: seq<Option<Point<V>>>, m: map<int, V>, cur: int, step: nat)
    requires 0 < cur && (cells != [] ==> At(cur, step, |cells| - 1) < U32)
    requires |Gather(cells, cur, step)| == |cells|
    requires forall i :: 0 <= i < |cells| && cells[i].Some? && cells[i].value.timestamp != 0 ==>
               cells[i].value.timestamp in m && m[cells[i].value.timestamp] == cells[i].value.value
    ensures AllAgree(cells, m, cur, step)
    ensures cells != [] ==>
              cells[|cells| - 1].Some? && cells[|cells| - 1].value.timestamp == At(cur, step, |cells| - 1)
  {
    if cells != [] {
      if |cells| > 1 {
        AtMonotone(cur, step, 1, |cells| - 1);
        assert At(cur, step, 1) == cur + step;
        Exact32(cur + step);
        AtNext(cur, step, |cells| - 2);
        CompleteAgrees(cells[1..], m, cur + step, step);
      } else {
        assert At(cur, step, 0) == cur;
      }
    }
  }

  ghost predicate Complete<V>(ring: seq<Point<V>>, hi: Archive, lo: Archive, t: int)
    requires Covers(hi, lo) && |ring| == hi.points
  {
    |Known(ring, hi, lo, t)| == Count(hi, lo)
  }

  /** A complete window hands the aggregator what the map holds, and contains its closing timestamp. */
  lemma CompleteIsExact<V>(ring: seq<Point<V>>, hi: Archive, lo: Archive, m: map<int, V>, t: int)
    requires Covers(hi, lo) && lo.step % hi.step == 0 && 0 < t < U32 && t % lo.step == 0
    requires Faithful(ring, hi, m, t) && Complete(ring, hi, lo, t)
    ensures Known(ring, hi, lo, t) == Below(hi, lo, m, t) && |Below(hi, lo, m, t)| == Count(hi, lo)
    ensures Carries(ring, t)
  {
    var n, s := Count(hi, lo), t - lo.step + hi.step;
    WindowSpan(hi, lo, t, 0);
    StartIs(hi, lo, t);
    var j := Slot(hi, ring[0].timestamp, s);
    ReadSplit(hi, j, n);
    var cells := Cells(ring, hi, j, n);
    assert At(s, hi.step, n - 1) == t;
    CompleteAgrees(cells, m, s, hi.step);
    GatherAgrees(cells, m, s, hi.step);
    assert cells[n - 1] == Some(ring[Source(hi, j, n, n - 1).value]);
  }

  /** Between a level and the next: if the newest timestamp is on the next, its window still passes. */
  ghost predicate Fresh<V>(policy: Policy<V>, fine: seq<Point<V>>, coarse: seq<Point<V>>, hi: Archive, lo: Archive, now: int)
    requires Covers(hi, lo) && |fine| == hi.points
  {
    now != 0 && Carries(coarse, now) ==> Passes(|Known(fine, hi, lo, now)|, Count(hi, lo), policy.xff)
  }

  /** If the newest timestamp is rewritten, no timestamp of the ring moves. */
  ghost predicate Settled<V>(ring: seq<Point<V>>, ring': seq<Point<V>>, t: int) {
    Carries(ring, t) ==> SameTimes(ring', ring)
  }

  lemma WriteSettled<V>(ring: seq<Point<V>>, a: Archive, m: map<int, V>, now: int, p: Point<V>)
    requires Faithful(ring, a, m, now) && now <= p.timestamp && 0 < p.timestamp
    ensures Settled(ring, WritePoint(ring, a, p), p.timestamp)
  {
  }

  /** A window that passes a positive factor is complete. */
  lemma PassedIsExact<V>(policy: Policy<V>, ring: seq<Point<V>>, hi: Archive, lo: Archive, m: map<int, V>, t: int)
    requires 0.0 < policy.xff && Covers(hi, lo) && lo.step % hi.step == 0 && 0 < t < U32 && t % lo.step == 0
    requires Faithful(ring, hi, m, t) && Passes(|Known(ring, hi, lo, t)|, Count(hi, lo), policy.xff)
    ensures Known(ring, hi, lo, t) == Below(hi, lo, m, t) && Carries(ring, t)
  {
    PassesMeans(|Known(ring, hi, lo, t)|, Count(hi, lo), policy.xff);
    CompleteIsExact(ring, hi, lo, m, t);
  }

  /** A rewritten timestamp that is on the coarse ring is propagated to it again. */
  lemma RewrittenAgain<V>(policy: Policy<V>, hi: Archive, lo: Archive, fine: seq<Point<V>>, fine': seq<Point<V>>,
                          coarse: seq<Point<V>>, m: map<int, V>, t: int)
    requires 0.0 < policy.xff && Covers(hi, lo) && lo.step % hi.step == 0 && 0 < t < U32 && t % lo.step == 0
    requires Faithful(fine, hi, m, t) && Fresh(policy, fine, coarse, hi, lo, t) && Carries(coarse, t)
    requires |fine'| == hi.points && Settled(fine, fine', t)
    ensures Passes(|Known(fine', hi, lo, t)|, Count(hi, lo), policy.xff)
  {
    PassedIsExact(policy, fine, hi, lo, m, t);
    KnownSize(fine', fine, hi, lo, t);
  }

  /** One archive further down, with nothing assumed about slot 0. */
  lemma NextLevelFaithful<V>(policy: Policy<V>, hi: Archive, lo: Archive, fine: seq<Point<V>>, fine': seq<Point<V>>,
                             coarse: seq<Point<V>>, hist: map<int, V>, m: map<int, V>, m': map<int, V>,
                             now: int, t: int, v: V)
    requires 0.0 < policy.xff && Covers(hi, lo) && lo.step % hi.step == 0
    requires Newest(hist, t) && 0 < t < U32 && now <= t && t % lo.step == 0 && SameBut(m, m', t)
    requires Faithful(fine, hi, m, now) && Faithful(fine', hi, m', t) && Settled(fine, fine', t)
    requires Faithful(coarse, lo, Lift(policy, hi, lo, hist, m), now) && Fresh(policy, fine, coarse, hi, lo, now)
    ensures var coarse' := Propagate(policy, hi, lo, fine', coarse, t);
            && Faithful(coarse', lo, Lift(policy, hi, lo, hist[t := v], m'), t)
            && Fresh(policy, fine', coarse', hi, lo, t) && Settled(coarse, coarse', t)
  {
    var l, l' := Lift(policy, hi, lo, hist, m), Lift(policy, hi, lo, hist[t := v], m');
    LiftStep(policy, hi, lo, hist, m, m', t, v);
    var known := Known(fine', hi, lo, t);
    if Passes(|known|, Count(hi, lo), policy.xff) {
      PassedIsExact(policy, fine', hi, lo, m', t);
      WriteFaithful(coarse, lo, l, l', now, Point(t, policy.aggregate(known)));
      WriteSettled(coarse, lo, l, now, Point(t, policy.aggregate(known)));
    } else {
      if Carries(coarse, t) {
        RewrittenAgain(policy, hi, lo, fine, fine', coarse, m, t);
      }
      KeepFaithful(coarse, lo, l, l', now, t);
    }
  }

  ghost predicate FileFaithful<V>(policy: Policy<V>, archives: seq<Archive>, rings: seq<seq<Point<V>>>,
                                  hist: map<int, V>, now: int)
    requires Levels(archives) && Shaped(archives, rings)
  {
    && (forall k :: 0 <= k < |archives| ==> Faithful(rings[k], archives[k], Level(policy, archives, hist, k), now))
    && (forall k :: 1 <= k < |archives| ==> Fresh(policy, rings[k - 1], rings[k], archives[k - 1], archives[k], now))
  }

  /** An archive the timestamp is no multiple of stays as it is. */
  lemma SkippedFaithful<V>(policy: Policy<V>, archives: seq<Archive>, ring: seq<Point<V>>, hist: map<int, V>,
                           now: int, t: int, v: V, k: nat)
    requires Levels(archives) && Dividing(archives) && 0 < k < |archives| && Newest(hist, t) && now <= t && 0 < t
    requires t % archives[k].step != 0 && Faithful(ring, archives[k], Level(policy, archives, hist, k), now)
    ensures Faithful(ring, archives[k], Level(policy, archives, hist[t := v], k), t) && !Carries(ring, t)
  {
    LevelStep(policy, archives, hist, t, v, k);
    KeepFaithful(ring, archives[k], Level(policy, archives, hist, k), Level(policy, archives, hist[t := v], k), now, t);
  }

  lemma {:induction false} WriteFaithfulLevel<V>(policy: Policy<V>, archives: seq<Archive>, rings: seq<seq<Point<V>>>,
                                                 hist: map<int, V>, now: int, p: Point<V>, k: nat)
    requires 0.0 < policy.xff && Levels(archives) && Dividing(archives) && Shaped(archives, rings) && k < |archives|
    requires FileFaithful(policy, archives, rings, hist, now) && Newest(hist, p.timestamp)
    requires now <= p.timestamp && 0 < p.timestamp < U32 && Accessible(policy, archives, rings, p)
    ensures var r, t := WriteAligned(policy, archives, rings, p), p.timestamp;
            && Faithful(r[k], archives[k], Level(policy, archives, hist[t := p.value], k), t)
            && Settled(rings[k], r[k], t)
            && (0 < k ==> Fresh(policy, r[k - 1], r[k], archives[k - 1], archives[k], t))
  {
    WriteAt(policy, archives, rings, p, k);
    assert Faithful(rings[k], archives[k], Level(policy, archives, hist, k), now);
    if k == 0 {
      WriteFaithful(rings[0], archives[0], hist, hist[p.timestamp := p.value], now, p);
      WriteSettled(rings[0], archives[0], hist, now, p);
    } else {
      WriteFaithfulLevel(policy, archives, rings, hist, now, p, k - 1);
      if p.timestamp % archives[k].step == 0 {
        assert Faithful(rings[k - 1], archives[k - 1], Level(policy, archives, hist, k - 1), now);
        LevelStep(policy, archives, hist, p.timestamp, p.value, k - 1);
        NextLevelFaithful(policy, archives[k - 1], archives[k], rings[k - 1], WriteAligned(policy, archives, rings, p)[k - 1],
                          rings[k], hist, Level(policy, archives, hist, k - 1),
                          Level(policy, archives, hist[p.timestamp := p.value], k - 1), now, p.timestamp, p.value);
      } else {
        SkippedFaithful(policy, archives, rings[k], hist, now, p.timestamp, p.value, k);
      }
    }
  }

  /**
   * Soundness over whole runs: with a positive factor, every point any ring
   * holds after any run in order with a defined result is a point of the
   * pyramid, with its value.
   */
  lemma {:induction false} RunIsFaithful<V>(policy: Policy<V>, archives: seq<Archive>, rings: seq<seq<Point<V>>>,
                                            samples: seq<Point<V>>)
    requires 0.0 < policy.xff && Levels(archives) && Dividing(archives) && Shaped(archives, rings) && Blank(rings)
    requires Ordered(archives[0].step, samples) && Defined(policy, archives, rings, samples)
    ensures FileFaithful(policy, archives, Run(policy, archives, rings, samples),
                         History(archives[0].step, samples), Latest(archives[0].step, samples))
  {
    var step := archives[0].step;
    if samples != [] {
      var before, last := samples[..|samples| - 1], samples[|samples| - 1];
      var p := Point(Align(last.timestamp, step), last.value);
      OrderedPrefix(step, samples);
      RunIsFaithful(policy, archives, rings, before);
      HistoryNewest(step, samples);
      HistoryNewest(step, before);
      forall k | 0 <= k < |archives|
        ensures Faithful(Run(policy, archives, rings, samples)[k], archives[k],
                         Level(policy, archives, History(step, samples), k), p.timestamp)
        ensures 0 < k ==> Fresh(policy, Run(policy, archives, rings, samples)[k - 1],
                                Run(policy, archives, rings, samples)[k], archives[k - 1], archives[k], p.timestamp)
      {
        WriteFaithfulLevel(policy, archives, Run(policy, archives, rings, before), History(step, before),
                           Latest(step, before), p, k);
      }
    }
  }

  /**
   * The stored averages are true means: after any run in order with a defined
   * result, whatever the alignment of the rings, every point of archive `k` is
   * the mean of the values last written for all the finest timestamps in the
   * span it closes.
   */
  lemma {:induction false} StoredAveragesAreTrueMeans(xff: real, archives: seq<Archive>, rings: seq<seq<Point<real>>>,
                                                      samples: seq<Point<real>>, k: int, j: int)
    requires 0.0 < xff && Levels(archives) && Dividing(archives) && Shaped(archives, rings) && Blank(rings)
    requires Ordered(archives[0].step, samples) && 0 <= k < |archives| && 0 <= j < archives[k].points
    requires Defined(AggregatePolicy(Average, xff), archives, rings, samples)
    ensures var p := Run(AggregatePolicy(Average, xff), archives, rings, samples)[k][j];
            p.timestamp != 0 ==>
              IsMean(History(archives[0].step, samples), archives[0].step, FinePoints(archives, k), archives[k].step,
                     p.timestamp, p.value)
  {
    var hist := History(archives[0].step, samples);
    RunIsFaithful(AggregatePolicy(Average, xff), archives, rings, samples);
    MeanOfMeans(xff, archives, hist, k);
    assert Faithful(Run(AggregatePolicy(Average, xff), archives, rings, samples)[k], archives[k],
                    Level(AggregatePolicy(Average, xff), archives, hist, k), Latest(archives[0].step, samples));
  }
}
