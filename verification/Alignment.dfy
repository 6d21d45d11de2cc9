/** When slot 0 of the rings opens a window, told from the run itself. */
module Alignment {
  import opened Arith
  import opened Words
  import opened Ring
  import opened Window
  import opened Engine
  import opened Pyramid
  import opened PyramidRuns
  import opened Aggregates

  // From the history alone.

  ghost predicate IsLeast<V>(m: map<int, V>, t: int) {
    t in m && forall u <- m :: t <= u
  }

  /** The least timestamp of every level that has points opens a window of the next archive. */
  ghost predicate Aligned<V>(policy: Policy<V>, archives: seq<Archive>, hist: map<int, V>)
    requires Levels(archives)
  {
    forall k, t :: 0 <= k < |archives| - 1 && IsLeast(Level(policy, archives, hist, k), t) ==>
                     OpensWindow(archives[k], archives[k + 1], t)
  }

  /** A level that has points keeps its least timestamp. */
  lemma LeastKept<V>(policy: Policy<V>, archives: seq<Archive>, hist: map<int, V>, t: int, v: V, k: nat, u: int)
    requires Levels(archives) && Dividing(archives) && k < |archives| && Newest(hist, t)
    ensures var l, l' := Level(policy, archives, hist, k), Level(policy, archives, hist[t := v], k);
            && (IsLeast(l, u) ==> IsLeast(l', u))
            && (IsLeast(l', u) ==> if l == map[] then u == t else IsLeast(l, u))
            && l'.Keys <= l.Keys + {t}
  {
    LevelStep(policy, archives, hist, t, v, k);
    LevelKeys(policy, archives, hist, k);
  }

  lemma AlignedBefore<V>(policy: Policy<V>, archives: seq<Archive>, hist: map<int, V>, t: int, v: V)
    requires Levels(archives) && Dividing(archives) && Newest(hist, t) && Aligned(policy, archives, hist[t := v])
    ensures Aligned(policy, archives, hist)
  {
    forall k, u | 0 <= k < |archives| - 1 && IsLeast(Level(policy, archives, hist, k), u)
      ensures OpensWindow(archives[k], archives[k + 1], u)
    {
      LeastKept(policy, archives, hist, t, v, k, u);
    }
  }

  /** A file in the middle of a run, about to take the point `p`. */
  ghost predicate Ready<V(!new)>(policy: Policy<V>, archives: seq<Archive>, rings: seq<seq<Point<V>>>,
                                 hist: map<int, V>, now: int, p: Point<V>)
  {
    && Chain(archives) && Shaped(archives, rings) && FileRefines(policy, archives, rings, hist, now)
    && 0 < p.timestamp < U32 && p.timestamp % archives[0].step == 0 && now <= p.timestamp
    && Newest(hist, p.timestamp) && AllInRange(archives, rings, p.timestamp) && BasesAligned(archives, rings)
    && AllInRange(archives, WriteAligned(policy, archives, rings, p), p.timestamp)
    && Accessible(policy, archives, rings, p)
  }

  /** The first point of a ring is the least timestamp of its level, if the rings before it are aligned. */
  lemma {:induction false} FirstIsLeast<V(!new)>(policy: Policy<V>, archives: seq<Archive>, rings: seq<seq<Point<V>>>,
                                                 hist: map<int, V>, now: int, p: Point<V>, k: int)
    requires Ready(policy, archives, rings, hist, now, p) && 0 <= k < |archives| && rings[k][0].timestamp == 0
    requires OpenedTo(archives, WriteAligned(policy, archives, rings, p), k)
    ensures var base := WriteAligned(policy, archives, rings, p)[k][0].timestamp;
            var level := Level(policy, archives, hist[p.timestamp := p.value], k);
            if base == 0 then level == map[] else base == p.timestamp && IsLeast(level, base)
  {
    var r: seq<seq<Point<V>>> := WriteAligned(policy, archives, rings, p);
    WriteRefinesLevel(policy, archives, rings, hist, now, p, k);
    assert Refines(rings[k], archives[k], Level(policy, archives, hist, k), now);
    LeastKept(policy, archives, hist, p.timestamp, p.value, k, p.timestamp);
    assert r[k][0].timestamp != 0 ==> Kept(r[k], archives[k], Level(policy, archives, hist[p.timestamp := p.value], k), 0);
  }

  /** One write: the ring after the first `k`, all aligned, is aligned if the new history is. */
  lemma {:induction false} NextOpens<V(!new)>(policy: Policy<V>, archives: seq<Archive>, rings: seq<seq<Point<V>>>,
                                              hist: map<int, V>, now: int, p: Point<V>, k: nat)
    requires Ready(policy, archives, rings, hist, now, p) && Opened(archives, rings) && k < |archives| - 1
    requires Aligned(policy, archives, hist[p.timestamp := p.value])
    requires OpenedTo(archives, WriteAligned(policy, archives, rings, p), k)
    ensures var base := WriteAligned(policy, archives, rings, p)[k][0].timestamp;
            base != 0 ==> OpensWindow(archives[k], archives[k + 1], base)
  {
    if rings[k][0].timestamp != 0 {
      OpeningKept(policy, archives, rings, p, k);
    } else {
      FirstIsLeast(policy, archives, rings, hist, now, p, k);
    }
  }

  /** One write: if the new history is aligned, so are the rings. */
  lemma {:induction false} AlignedOpens<V(!new)>(policy: Policy<V>, archives: seq<Archive>, rings: seq<seq<Point<V>>>,
                                                 hist: map<int, V>, now: int, p: Point<V>)
    requires Ready(policy, archives, rings, hist, now, p) && Opened(archives, rings)
    requires Aligned(policy, archives, hist[p.timestamp := p.value])
    ensures Opened(archives, WriteAligned(policy, archives, rings, p))
  {
    var k := 0;
    while k < |archives| - 1
      invariant 0 <= k < |archives| && OpenedTo(archives, WriteAligned(policy, archives, rings, p), k)
    {
      NextOpens(policy, archives, rings, hist, now, p, k);
      k := k + 1;
    }
  }

  /** One write: if all rings are aligned after it, so is the new history. */
  lemma OpenedAligns<V(!new)>(policy: Policy<V>, archives: seq<Archive>, rings: seq<seq<Point<V>>>,
                              hist: map<int, V>, now: int, p: Point<V>)
    requires Ready(policy, archives, rings, hist, now, p) && Aligned(policy, archives, hist)
    requires Opened(archives, WriteAligned(policy, archives, rings, p))
    ensures Aligned(policy, archives, hist[p.timestamp := p.value])
  {
    var hist' := hist[p.timestamp := p.value];
    forall k, u | 0 <= k < |archives| - 1 && IsLeast(Level(policy, archives, hist', k), u)
      ensures OpensWindow(archives[k], archives[k + 1], u)
    {
      LeastKept(policy, archives, hist, p.timestamp, p.value, k, u);
      assert Refines(rings[k], archives[k], Level(policy, archives, hist, k), now);
      if Level(policy, archives, hist, k) == map[] {
        assert rings[k][0].timestamp != 0 ==> Kept(rings[k], archives[k], Level(policy, archives, hist, k), 0);
        FirstIsLeast(policy, archives, rings, hist, now, p, k);
      }
    }
  }

  /** One write keeps rings and history aligned alike. */
  lemma AlignedStep<V(!new)>(policy: Policy<V>, archives: seq<Archive>, rings: seq<seq<Point<V>>>,
                             hist: map<int, V>, now: int, p: Point<V>)
    requires Chain(archives) && Shaped(archives, rings) && p.timestamp % archives[0].step == 0 && p.timestamp != 0
    requires AllInRange(archives, rings, p.timestamp) && BasesAligned(archives, rings) && Newest(hist, p.timestamp)
    requires Opened(archives, rings) ==> Ready(policy, archives, rings, hist, now, p)
    requires Opened(archives, rings) <==> Aligned(policy, archives, hist)
    ensures Opened(archives, WriteAligned(policy, archives, rings, p))
       <==> Aligned(policy, archives, hist[p.timestamp := p.value])
  {
    if Opened(archives, WriteAligned(policy, archives, rings, p)) {
      OpenedBefore(policy, archives, rings, p);
      OpenedAligns(policy, archives, rings, hist, now, p);
    }
    if Aligned(policy, archives, hist[p.timestamp := p.value]) {
      AlignedBefore(policy, archives, hist, p.timestamp, p.value);
      AlignedOpens(policy, archives, rings, hist, now, p);
    }
  }

  /**
   * After any regular run with a defined result, for any number of archives,
   * slot 0 of the rings opens windows exactly if the run's history is aligned.
   */
  lemma {:induction false} AlignedExactlyWhen<V(!new)>(policy: Policy<V>, archives: seq<Archive>,
                                                       rings: seq<seq<Point<V>>>, samples: seq<Point<V>>)
    requires Chain(archives) && Shaped(archives, rings) && Blank(rings) && Regular(archives[0].step, samples)
    requires Defined(policy, archives, rings, samples)
    ensures Opened(archives, Run(policy, archives, rings, samples))
       <==> Aligned(policy, archives, History(archives[0].step, samples))
  {
    var step := archives[0].step;
    if samples == [] {
      BlankIsAligned(policy, archives, rings);
    } else {
      var before, last := samples[..|samples| - 1], samples[|samples| - 1];
      RunIsReady(policy, archives, rings, samples);
      AlignedExactlyWhen(policy, archives, rings, before);
      AlignedStep(policy, archives, Run(policy, archives, rings, before), History(step, before), Latest(step, before),
                  Point(Align(last.timestamp, step), last.value));
    }
  }

  lemma BlankIsAligned<V>(policy: Policy<V>, archives: seq<Archive>, rings: seq<seq<Point<V>>>)
    requires Levels(archives) && Shaped(archives, rings) && Blank(rings)
    ensures Opened(archives, rings) && Aligned(policy, archives, map[])
  {
    forall k | 0 <= k < |archives| ensures Level(policy, archives, map[], k) == map[] && rings[k][0].timestamp == 0 {
      LevelKeys(policy, archives, map[], k);
    }
  }

  lemma {:induction false} RunIsReady<V(!new)>(policy: Policy<V>, archives: seq<Archive>, rings: seq<seq<Point<V>>>,
                                               samples: seq<Point<V>>)
    requires Chain(archives) && Shaped(archives, rings) && Blank(rings) && Regular(archives[0].step, samples)
    requires Defined(policy, archives, rings, samples) && samples != []
    ensures var step, before, last := archives[0].step, samples[..|samples| - 1], samples[|samples| - 1];
            var p, r := Point(Align(last.timestamp, step), last.value), Run(policy, archives, rings, before);
            && p.timestamp % step == 0 && p.timestamp != 0
            && AllInRange(archives, r, p.timestamp) && BasesAligned(archives, r)
            && Regular(step, before) && Newest(History(step, before), p.timestamp)
            && (Opened(archives, r) ==> Ready(policy, archives, r, History(step, before), Latest(step, before), p))
  {
    var step, before, last := archives[0].step, samples[..|samples| - 1], samples[|samples| - 1];
    var t, origin := Align(last.timestamp, step), Align(samples[0].timestamp, step);
    RegularPrefix(step, samples);
    RunInRange(policy, archives, rings, before, origin, t);
    RunInRange(policy, archives, rings, samples, origin, t);
    HistoryNewest(step, before);
    if Opened(archives, Run(policy, archives, rings, before)) {
      OpenedRunsRefine(policy, archives, rings, before);
    }
  }

  /**
   * Refinement over whole runs: after any regular run with a defined result and
   * an aligned history, every ring stands for its level of the pyramid.
   */
  lemma {:induction false} RunRefinesPyramid<V(!new)>(policy: Policy<V>, archives: seq<Archive>, rings: seq<seq<Point<V>>>,
                                                      samples: seq<Point<V>>)
    requires Chain(archives) && Shaped(archives, rings) && Blank(rings) && Regular(archives[0].step, samples)
    requires Defined(policy, archives, rings, samples)
    requires Aligned(policy, archives, History(archives[0].step, samples))
    ensures FileRefines(policy, archives, Run(policy, archives, rings, samples),
                        History(archives[0].step, samples), Latest(archives[0].step, samples))
  {
    AlignedExactlyWhen(policy, archives, rings, samples);
    OpenedRunsRefine(policy, archives, rings, samples);
  }

  // From the first sample.

  /** The finest ring opens windows, whatever the number of laps, exactly if the first sample of the run does. */
  lemma {:induction false} FirstSampleDecides<V>(policy: Policy<V>, archives: seq<Archive>, rings: seq<seq<Point<V>>>,
                                                 samples: seq<Point<V>>)
    requires Chain(archives) && 2 <= |archives| && Shaped(archives, rings) && Blank(rings)
    requires Regular(archives[0].step, samples) && samples != []
    ensures var base := Run(policy, archives, rings, samples)[0][0].timestamp;
            && base != 0
            && (OpensWindow(archives[0], archives[1], base)
                <==> OpensWindow(archives[0], archives[1], Align(samples[0].timestamp, archives[0].step)))
  {
    var step, before, last := archives[0].step, samples[..|samples| - 1], samples[|samples| - 1];
    var p := Point(Align(last.timestamp, step), last.value);
    var r: seq<seq<Point<V>>> := Run(policy, archives, rings, before);
    RegularPrefix(step, samples);
    if before == [] {
      assert rings[0][0].timestamp == 0;
      WriteAt(policy, archives, rings, p, 0);
    } else {
      FirstSampleDecides(policy, archives, rings, before);
      RunInRange(policy, archives, rings, before, Align(samples[0].timestamp, step), p.timestamp);
      OpeningKept(policy, archives, r, p, 0);
    }
  }

  /** With two archives the rings are aligned after a run exactly if its first sample opens a window. */
  lemma {:induction false} TwoArchivesAlignedExactlyWhen<V>(policy: Policy<V>, archives: seq<Archive>, rings: seq<seq<Point<V>>>,
                                                            samples: seq<Point<V>>)
    requires Chain(archives) && |archives| == 2 && Shaped(archives, rings) && Blank(rings)
    requires Regular(archives[0].step, samples) && samples != []
    ensures Opened(archives, Run(policy, archives, rings, samples))
       <==> OpensWindow(archives[0], archives[1], Align(samples[0].timestamp, archives[0].step))
  {
    FirstSampleDecides(policy, archives, rings, samples);
  }

  // Runs without gaps.

  /** No step of the finest archive is left out, and the first sample opens a window of the coarsest. */
  ghost predicate GapFree<V>(archives: seq<Archive>, samples: seq<Point<V>>)
    requires Levels(archives)
  {
    var step := archives[0].step;
    && (samples != [] ==> (Align(samples[0].timestamp, step) - step) % archives[|archives| - 1].step == 0)
    && (forall i :: 1 <= i < |samples| ==>
          Align(samples[i].timestamp, step) <= Align(samples[i - 1].timestamp, step) + step)
  }

  /** Samples one step apart, the first one step into a period of the coarsest archive, are such a run. */
  lemma ConsecutiveIsGapFree<V>(archives: seq<Archive>, samples: seq<Point<V>>, start: int)
    requires Levels(archives) && 0 <= start && start % archives[|archives| - 1].step == 0 && start % archives[0].step == 0
    requires forall i :: 0 <= i < |samples| ==> samples[i].timestamp == At(start + archives[0].step, archives[0].step, i) < U32
    ensures GapFree(archives, samples) && Ordered(archives[0].step, samples)
  {
    var step := archives[0].step;
    forall i | 0 <= i < |samples|
      ensures Align(samples[i].timestamp, step) == At(start + step, step, i) && step <= samples[i].timestamp
    {
      ModShift(start, i + 1, step);
      assert At(start + step, step, i) == start + (i + 1) * step;
      MulAtLeast(i + 1, step);
    }
    forall i | 1 <= i < |samples| ensures Align(samples[i].timestamp, step) <= Align(samples[i - 1].timestamp, step) + step {
      AtNext(start + step, step, i - 1);
    }
    forall i, j | 0 <= i < j < |samples| ensures Align(samples[i].timestamp, step) <= Align(samples[j].timestamp, step) {
      AtMonotone(start + step, step, i, j);
    }
  }

  lemma GapFreePrefix<V>(archives: seq<Archive>, samples: seq<Point<V>>)
    requires Levels(archives) && GapFree(archives, samples) && samples != []
    ensures GapFree(archives, samples[..|samples| - 1])
    ensures |samples| > 1 ==>
              Align(samples[|samples| - 1].timestamp, archives[0].step)
              <= Latest(archives[0].step, samples[..|samples| - 1]) + archives[0].step
  {
    var before := samples[..|samples| - 1];
    assert forall i :: 0 <= i < |before| ==> before[i] == samples[i];
  }

  /** All timestamps from the first to the latest are in the history. */
  lemma {:induction false} GapFreeHistory<V>(archives: seq<Archive>, samples: seq<Point<V>>, u: int)
    requires Levels(archives) && GapFree(archives, samples) && Ordered(archives[0].step, samples) && samples != []
    requires Align(samples[0].timestamp, archives[0].step) <= u <= Latest(archives[0].step, samples)
    requires u % archives[0].step == 0
    ensures u in History(archives[0].step, samples)
  {
    var step, before := archives[0].step, samples[..|samples| - 1];
    if u != Latest(step, samples) {
      GapFreePrefix(archives, samples);
      OrderedPrefix(step, samples);
      NextMultiple(u, Latest(step, samples), step);
      GapFreeHistory(archives, before, u);
    }
  }

  /** A smaller multiple is smaller by a step at least. */
  lemma NextMultiple(u: int, t: int, step: int)
    requires 0 < step && u % step == 0 && t % step == 0 && u < t
    ensures u + step <= t
  {
    MultiplesCombine(t, u, step);
    assert t - u == ((t - u) / step) * step;
    MulCancelLess(0, (t - u) / step, step);
    MulAtLeast((t - u) / step, step);
  }

  lemma {:induction false} GapFreeFull<V>(archives: seq<Archive>, samples: seq<Point<V>>, cur: int, n: nat)
    requires Levels(archives) && GapFree(archives, samples) && Ordered(archives[0].step, samples) && samples != []
    requires Align(samples[0].timestamp, archives[0].step) <= cur && cur % archives[0].step == 0
    requires n > 0 ==> At(cur, archives[0].step, n - 1) <= Latest(archives[0].step, samples)
    ensures Full(History(archives[0].step, samples), cur, archives[0].step, n)
    decreases n
  {
    var step := archives[0].step;
    if n > 0 {
      AtMonotone(cur, step, 0, n - 1);
      assert At(cur, step, 0) == cur;
      GapFreeHistory(archives, samples, cur);
      ModShift(cur, 1, step);
      if n > 1 {
        AtNext(cur, step, n - 2);
      }
      GapFreeFull(archives, samples, cur + step, n - 1);
    }
  }

  /** The end of the first window of archive `k`. */
  function FirstEnd<V>(archives: seq<Archive>, samples: seq<Point<V>>, k: int): int
    requires Levels(archives) && samples != [] && 0 <= k < |archives|
  {
    Align(samples[0].timestamp, archives[0].step) - archives[0].step + archives[k].step
  }

  /** Its fine timestamps run from the first sample to its end. */
  lemma {:induction false} FirstSpan<V>(archives: seq<Archive>, samples: seq<Point<V>>, k: nat)
    requires Levels(archives) && Dividing(archives) && samples != [] && k < |archives|
    ensures 0 < FinePoints(archives, k)
    ensures At(Align(samples[0].timestamp, archives[0].step), archives[0].step, FinePoints(archives, k) - 1)
         == FirstEnd(archives, samples, k)
  {
    var step, n := archives[0].step, FinePoints(archives, k);
    FinePointsSpan(archives, k);
    assert (n - 1) * step == n * step - step;
  }

  /** Once the first window of archive `k` has gone by it is full in the history. */
  lemma {:induction false} FirstWindowFull<V>(archives: seq<Archive>, samples: seq<Point<V>>, k: nat)
    requires Levels(archives) && Dividing(archives) && samples != [] && 0 < k < |archives|
    requires GapFree(archives, samples) && Ordered(archives[0].step, samples)
    requires FirstEnd(archives, samples, k) <= Latest(archives[0].step, samples)
    ensures Full(History(archives[0].step, samples), Align(samples[0].timestamp, archives[0].step), archives[0].step,
                 FinePoints(archives, k))
    ensures FirstEnd(archives, samples, k) in History(archives[0].step, samples)
  {
    var step, n := archives[0].step, FinePoints(archives, k);
    FirstSpan(archives, samples, k);
    RoundDown(samples[0].timestamp, step);
    GapFreeFull(archives, samples, Align(samples[0].timestamp, step), n);
    FullEnds(History(step, samples), Align(samples[0].timestamp, step), step, n);
  }

  /** So its level has a point there, unless nothing can pass the factor. */
  lemma {:induction false} FirstWindowStored<V>(policy: Policy<V>, archives: seq<Archive>, samples: seq<Point<V>>, k: nat)
    requires Levels(archives) && Dividing(archives) && samples != [] && 0 < k < |archives| && policy.xff <= 1.0
    requires GapFree(archives, samples) && Ordered(archives[0].step, samples)
    requires FirstEnd(archives, samples, k) <= Latest(archives[0].step, samples)
    requires FirstEnd(archives, samples, k) % archives[k].step == 0
    ensures FirstEnd(archives, samples, k) in Level(policy, archives, History(archives[0].step, samples), k)
  {
    var hist, first := History(archives[0].step, samples), FirstEnd(archives, samples, k);
    FirstWindowFull(archives, samples, k);
    if 0.0 < policy.xff {
      FullSpansArePropagated(policy, archives, hist, k);
    } else {
      var hi, lo := archives[k - 1], archives[k];
      PassesMeans(|Below(hi, lo, Level(policy, archives, hist, k - 1), first)|, Count(hi, lo), policy.xff);
    }
  }

  lemma {:induction false} DividesLast(archives: seq<Archive>, k: int, x: int)
    requires Levels(archives) && Dividing(archives) && 0 <= k < |archives| && x % archives[|archives| - 1].step == 0
    ensures x % archives[k].step == 0
    decreases |archives| - k
  {
    if k < |archives| - 1 {
      DividesLast(archives, k + 1, x);
      DividesTransitive(archives[k].step, archives[k + 1].step, x);
    }
  }

  /** A multiple of the step after the start of the run is the first end of a window or lies beyond it. */
  lemma FirstEndIsFirst<V>(archives: seq<Archive>, samples: seq<Point<V>>, k: int, t: int)
    requires Levels(archives) && Dividing(archives) && samples != [] && 0 <= k < |archives|
    requires GapFree(archives, samples) && t % archives[k].step == 0
    requires Align(samples[0].timestamp, archives[0].step) <= t
    ensures FirstEnd(archives, samples, k) <= t && FirstEnd(archives, samples, k) % archives[k].step == 0
    ensures FirstEnd(archives, samples, k) % archives[0].step == 0
  {
    var x := Align(samples[0].timestamp, archives[0].step) - archives[0].step;
    DividesLast(archives, k, x);
    NextMultiple(x, t, archives[k].step);
    ModShift(x, 1, archives[k].step);
    FinePointsSpan(archives, k);
    MultipleHasNoRemainder(FinePoints(archives, k), archives[0].step);
    DividesTransitive(archives[0].step, archives[k].step, FirstEnd(archives, samples, k));
  }

  lemma FirstEndOpens<V>(archives: seq<Archive>, samples: seq<Point<V>>, k: int)
    requires Levels(archives) && Dividing(archives) && samples != [] && 0 <= k < |archives| - 1
    requires GapFree(archives, samples)
    ensures OpensWindow(archives[k], archives[k + 1], FirstEnd(archives, samples, k))
  {
    DividesLast(archives, k + 1, Align(samples[0].timestamp, archives[0].step) - archives[0].step);
  }

  /** The timestamps of a history are those of the run, aligned. */
  lemma {:induction false} HistoryKeys<V>(step: int, samples: seq<Point<V>>, t: int)
    requires 0 < step && Ordered(step, samples) && t in History(step, samples)
    ensures samples != [] && Align(samples[0].timestamp, step) <= t <= Latest(step, samples) && t % step == 0
  {
    OrderedPrefix(step, samples);
    var before := samples[..|samples| - 1];
    if t in History(step, before) {
      HistoryKeys(step, before, t);
    }
  }

  /** A level with points has one at the end of its first window. */
  lemma {:induction false} FirstEndStored<V>(policy: Policy<V>, archives: seq<Archive>, samples: seq<Point<V>>, k: nat, t: int)
    requires Levels(archives) && Dividing(archives) && Ordered(archives[0].step, samples) && GapFree(archives, samples)
    requires k < |archives| && t in Level(policy, archives, History(archives[0].step, samples), k)
    ensures samples != [] && FirstEnd(archives, samples, k) <= t
    ensures FirstEnd(archives, samples, k) in Level(policy, archives, History(archives[0].step, samples), k)
  {
    var hist := History(archives[0].step, samples);
    LevelKeys(policy, archives, hist, k);
    HistoryKeys(archives[0].step, samples, t);
    FirstEndIsFirst(archives, samples, k, t);
    if k == 0 {
      RoundDown(samples[0].timestamp, archives[0].step);
      GapFreeHistory(archives, samples, FirstEnd(archives, samples, 0));
    } else {
      var hi, lo := archives[k - 1], archives[k];
      PassesMeans(|Below(hi, lo, Level(policy, archives, hist, k - 1), t)|, Count(hi, lo), policy.xff);
      FirstWindowStored(policy, archives, samples, k);
    }
  }

  /** The history of every run without gaps that starts a window of the coarsest archive is aligned, for any policy. */
  lemma {:induction false} GapFreeIsAligned<V>(policy: Policy<V>, archives: seq<Archive>, samples: seq<Point<V>>)
    requires Levels(archives) && Dividing(archives) && Ordered(archives[0].step, samples) && GapFree(archives, samples)
    ensures Aligned(policy, archives, History(archives[0].step, samples))
  {
    var hist := History(archives[0].step, samples);
    forall k, t | 0 <= k < |archives| - 1 && IsLeast(Level(policy, archives, hist, k), t)
      ensures OpensWindow(archives[k], archives[k + 1], t)
    {
      FirstEndStored(policy, archives, samples, k, t);
      FirstEndOpens(archives, samples, k);
    }
  }

  // Runs whose accesses are good, told from the schema and the first sample.

  /** Roomy archives, with twelve seconds per point or more from the second on. */
  predicate Spacious(archives: seq<Archive>)
    requires Levels(archives)
  {
    Roomy(archives) && forall k :: 1 <= k < |archives| ==> POINT_SIZE <= archives[k].step
  }

  lemma SafeIsSpacious(archives: seq<Archive>)
    requires Safe(archives)
    ensures Spacious(archives)
  {
  }

  ghost predicate StartsWindow<V>(archives: seq<Archive>, samples: seq<Point<V>>)
    requires Levels(archives)
  {
    samples != [] && 2 <= |archives| ==>
      OpensWindow(archives[0], archives[1], Align(samples[0].timestamp, archives[0].step))
  }

  /** In range, a write goes to a slot. */
  lemma InRangeOnSlot<V>(ring: seq<Point<V>>, a: Archive, t: int)
    requires Sound(a) && |ring| == a.points && t % a.step == 0
    requires ring[0].timestamp != 0 ==> InRange(a, ring[0].timestamp, t) && ring[0].timestamp % a.step == 0
    ensures OnSlot(ring, a, t)
  {
    if ring[0].timestamp != 0 {
      SlotIsHome(a, ring[0].timestamp, t);
    }
  }

  /** Propagating to archive `k` of a spacious file is good; from the finest archive it takes an aligned slot 0. */
  lemma SpaciousIsGood<V>(policy: Policy<V>, archives: seq<Archive>, rings: seq<seq<Point<V>>>, r: seq<seq<Point<V>>>,
                          t: int, k: int)
    requires Chain(archives) && Spacious(archives) && Shaped(archives, rings) && Shaped(archives, r)
    requires 1 <= k < |archives| && t % archives[k].step == 0
    requires k == 1 ==> && r[0][0].timestamp > 0 && InRange(archives[0], r[0][0].timestamp, t)
                        && OpensWindow(archives[0], archives[1], r[0][0].timestamp)
    ensures GoodAt(policy, archives, rings, r, t, k)
  {
    var hi, lo, base := archives[k - 1], archives[k], r[k - 1][0].timestamp;
    assert Tiles(hi, lo);
    CoarseStepsNeverWrap(lo, rings[k][0].timestamp, t);
    if k == 1 {
      AlignedStart(hi, lo, base, t);
    } else {
      CoarseStepsNeverWrap(hi, base, Start(hi, lo, t));
    }
    AmpleFits(hi, Slot(hi, base, Start(hi, lo, t)), Count(hi, lo));
  }

  /** One call on spacious archives whose finest ring is aligned. */
  lemma SpaciousCall<V>(policy: Policy<V>, archives: seq<Archive>, rings: seq<seq<Point<V>>>, p: Point<V>)
    requires Chain(archives) && Spacious(archives) && Shaped(archives, rings) && p.timestamp % archives[0].step == 0
    requires var base := rings[0][0].timestamp;
             base != 0 ==> InRange(archives[0], base, p.timestamp) && base % archives[0].step == 0
    requires var base := WriteAligned(policy, archives, rings, p)[0][0].timestamp;
             2 <= |archives| ==> base > 0 && InRange(archives[0], base, p.timestamp)
                                 && OpensWindow(archives[0], archives[1], base)
    ensures Accessible(policy, archives, rings, p)
  {
    var r: seq<seq<Point<V>>> := WriteAligned(policy, archives, rings, p);
    InRangeOnSlot(rings[0], archives[0], p.timestamp);
    forall k | 1 <= k < |archives| && ReachedFrom(archives, p.timestamp, 1, k)
      ensures GoodAt(policy, archives, rings, r, p.timestamp, k)
    {
      SpaciousIsGood(policy, archives, rings, r, p.timestamp, k);
    }
  }

  /** Every regular run on spacious archives whose first sample opens a window has a defined result. */
  lemma {:induction false} SpaciousRunsAreDefined<V>(policy: Policy<V>, archives: seq<Archive>,
                                                     rings: seq<seq<Point<V>>>, samples: seq<Point<V>>)
    requires Chain(archives) && Spacious(archives) && Shaped(archives, rings) && Blank(rings)
    requires Regular(archives[0].step, samples) && StartsWindow(archives, samples)
    ensures Defined(policy, archives, rings, samples)
  {
    if samples != [] {
      var step, before, last := archives[0].step, samples[..|samples| - 1], samples[|samples| - 1];
      var p, origin := Point(Align(last.timestamp, step), last.value), Align(samples[0].timestamp, step);
      var r: seq<seq<Point<V>>> := Run(policy, archives, rings, before);
      RegularPrefix(step, samples);
      SpaciousRunsAreDefined(policy, archives, rings, before);
      RunInRange(policy, archives, rings, before, origin, p.timestamp);
      RunInRange(policy, archives, rings, samples, origin, p.timestamp);
      if 2 <= |archives| {
        FirstSampleDecides(policy, archives, rings, samples);
      }
      SpaciousCall(policy, archives, r, p);
    }
  }

  /**
   * On spacious archives, every regular run without gaps that starts a window of
   * the coarsest archive has a defined result, and every ring stands for its
   * level of the pyramid, with nothing assumed about the rings.
   */
  lemma {:induction false} GapFreeRunsRefinePyramid<V(!new)>(policy: Policy<V>, archives: seq<Archive>,
                                                             rings: seq<seq<Point<V>>>, samples: seq<Point<V>>)
    requires Chain(archives) && Spacious(archives) && Shaped(archives, rings) && Blank(rings)
    requires Regular(archives[0].step, samples) && GapFree(archives, samples)
    ensures Defined(policy, archives, rings, samples) && Opened(archives, Run(policy, archives, rings, samples))
    ensures FileRefines(policy, archives, Run(policy, archives, rings, samples),
                        History(archives[0].step, samples), Latest(archives[0].step, samples))
  {
    if samples != [] && 2 <= |archives| {
      DividesLast(archives, 1, Align(samples[0].timestamp, archives[0].step) - archives[0].step);
    }
    SpaciousRunsAreDefined(policy, archives, rings, samples);
    GapFreeIsAligned(policy, archives, samples);
    AlignedExactlyWhen(policy, archives, rings, samples);
    OpenedRunsRefine(policy, archives, rings, samples);
  }
}
