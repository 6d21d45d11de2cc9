/**
 * A run on the shipped archives whose closing timestamps are all written and
 * whose coarse point is still lost: slot 0 was replaced inside the window, so the
 * start of the window lies before it and the 32-bit subtraction wraps.
 */
module LostWindow {
  import opened Words
  import opened Ring
  import opened Window
  import opened Engine
  import opened Pyramid
  import opened PyramidRuns
  import opened Aggregates
  import RunLaws

  /** The archives of 60 seconds for a day and 180 seconds for a week. */
  predicate Shipped(archives: seq<Archive>) {
    archives == [Archive(40, 60, 1440), Archive(17320, 180, 3360)]
  }

  lemma ShippedCounts(archives: seq<Archive>)
    requires Shipped(archives)
    ensures Levels(archives) && Dividing(archives) && Count(archives[0], archives[1]) == 3
  {
  }

  /** One sample, just short of a lap after it three in a row: the second of them replaces slot 0. */
  predicate LapInWindow<V>(samples: seq<Point<V>>) {
    && |samples| == 4 && samples[0].timestamp == 120
    && samples[1].timestamp == 86460 && samples[2].timestamp == 86520 && samples[3].timestamp == 86580
  }

  lemma SlotsOfRun(a: Archive)
    requires a == Archive(40, 60, 1440)
    ensures Slot(a, 120, 86460) == 1439 && Slot(a, 120, 86520) == 0 && Slot(a, 86520, 86580) == 1
  {
  }

  /** The start of the window is sought in slot 387; its home is slot 1439. */
  lemma StartIsMissed(hi: Archive, lo: Archive)
    requires hi == Archive(40, 60, 1440) && lo == Archive(17320, 180, 3360)
    ensures Covers(hi, lo) && Start(hi, lo, 86580) == 86460
    ensures Slot(hi, 86520, 86460) == 387 && Home(hi, 86520, 86460) == 1439 && !AsMeant(hi, lo, 86520, 86580)
  {
    assert Sub32(86460, 86520) == 4294967236;
    assert 4294967236 / 60 == 71582787;
    assert Count(hi, lo) == 3;
    ReadSplit(hi, 387, 3);
    assert Source(hi, 387, 3, 0) == Some(387);
  }

  /** A sample that closes no window changes the finest ring only. */
  lemma OnlyFinest<V>(policy: Policy<V>, archives: seq<Archive>, rings: seq<seq<Point<V>>>, t: int, v: V)
    requires Levels(archives) && Shaped(archives, rings) && |archives| == 2
    requires t % archives[0].step == 0 && t % archives[1].step != 0
    ensures WriteValue(policy, archives, rings, t, v) == rings[0 := WritePoint(rings[0], archives[0], Point(t, v))]
  {
  }

  /** Empty cells yield nothing. */
  lemma {:induction false} GatherNothing<V>(cells: seq<Option<Point<V>>>, cur: int, step: nat)
    requires 0 < cur && (cells != [] ==> At(cur, step, |cells| - 1) < U32)
    requires forall i :: 0 <= i < |cells| && cells[i].Some? ==> cells[i].value.timestamp == 0
    ensures Gather(cells, cur, step) == []
  {
    if |cells| > 1 {
      AtMonotone(cur, step, 1, |cells| - 1);
      assert At(cur, step, 1) == cur + step;
      Exact32(cur + step);
      AtNext(cur, step, |cells| - 2);
      GatherNothing(cells[1..], cur + step, step);
    }
  }

  /** From a ring with slot 0 at 86520 the window is read from slots 387 to 389. */
  lemma NothingKnown<V>(ring: seq<Point<V>>, hi: Archive, lo: Archive)
    requires hi == Archive(40, 60, 1440) && lo == Archive(17320, 180, 3360) && |ring| == 1440
    requires ring[0].timestamp == 86520 && ring[387].timestamp == ring[388].timestamp == ring[389].timestamp == 0
    ensures Covers(hi, lo) && Known(ring, hi, lo, 86580) == []
  {
    StartIsMissed(hi, lo);
    ReadSplit(hi, 387, 3);
    var cells := Cells(ring, hi, 387, 3);
    forall i | 0 <= i < 3 && cells[i].Some? ensures cells[i].value.timestamp == 0 {
      assert Source(hi, 387, 3, i) == Some(387 + i);
    }
    GatherNothing(cells, 86460, 60);
  }

  lemma {:induction false} OneMore<V>(policy: Policy<V>, archives: seq<Archive>, rings: seq<seq<Point<V>>>, samples: seq<Point<V>>, n: nat)
    requires Levels(archives) && Shaped(archives, rings) && n < |samples|
    ensures Run(policy, archives, rings, samples[..n + 1])
         == WriteValue(policy, archives, Run(policy, archives, rings, samples[..n]), samples[n].timestamp, samples[n].value)
  {
    assert samples[..n + 1][..n] == samples[..n];
  }

  /** The rings before the last sample. */
  lemma {:induction false} BeforeLast<V>(policy: Policy<V>, archives: seq<Archive>, rings: seq<seq<Point<V>>>,
                                         samples: seq<Point<V>>)
    requires Shipped(archives) && Levels(archives) && Shaped(archives, rings) && Blank(rings) && LapInWindow(samples)
    ensures var r := Run(policy, archives, rings, samples[..3]);
            && r[0] == rings[0][1439 := samples[1]][0 := samples[2]] && r[1] == rings[1]
  {
    var r1, r2 := Run(policy, archives, rings, samples[..1]), Run(policy, archives, rings, samples[..2]);
    SlotsOfRun(archives[0]);
    OneMore(policy, archives, rings, samples, 0);
    OneMore(policy, archives, rings, samples, 1);
    OneMore(policy, archives, rings, samples, 2);
    OnlyFinest(policy, archives, rings, 120, samples[0].value);
    assert rings[0][0].timestamp == 0;
    assert r1[0] == rings[0][0 := samples[0]] && r1[1] == rings[1];
    OnlyFinest(policy, archives, r1, 86460, samples[1].value);
    assert r2[0] == rings[0][0 := samples[0]][1439 := samples[1]] && r2[1] == rings[1];
    OnlyFinest(policy, archives, r2, 86520, samples[2].value);
  }

  /**
   * After the run the finest ring holds the three points of the window, in their
   * homes, and the coarse ring nothing with a positive factor and the aggregate
   * of no values otherwise.
   */
  lemma {:induction false} WindowIsLost<V>(policy: Policy<V>, archives: seq<Archive>, rings: seq<seq<Point<V>>>,
                                           samples: seq<Point<V>>)
    requires Shipped(archives) && Levels(archives) && Shaped(archives, rings) && Blank(rings) && LapInWindow(samples)
    ensures var r := Run(policy, archives, rings, samples);
            && r[0][1439] == samples[1] && r[0][0] == samples[2] && r[0][1] == samples[3]
            && r[1] == if policy.xff <= 0.0 then rings[1][0 := Point(86580, policy.aggregate([]))] else rings[1]
  {
    var r: seq<seq<Point<V>>> := Run(policy, archives, rings, samples[..3]);
    var fine := WritePoint(r[0], archives[0], samples[3]);
    BeforeLast(policy, archives, rings, samples);
    SlotsOfRun(archives[0]);
    assert fine == r[0][1 := samples[3]];
    assert forall j :: 0 <= j < 1440 ==> rings[0][j].timestamp == 0;
    NothingKnown(fine, archives[0], archives[1]);
    PassesMeans(0, 3, policy.xff);
    LastCall(policy, archives, r, samples[3]);
    OneMore(policy, archives, rings, samples, 3);
    assert samples[..4] == samples;
    assert rings[1][0].timestamp == 0;
  }

  lemma LastCall<V>(policy: Policy<V>, archives: seq<Archive>, rings: seq<seq<Point<V>>>, p: Point<V>)
    requires Levels(archives) && Shaped(archives, rings) && |archives| == 2
    requires p.timestamp % archives[0].step == 0 && p.timestamp % archives[1].step == 0
    ensures var fine := WritePoint(rings[0], archives[0], p);
            WriteValue(policy, archives, rings, p.timestamp, p.value)
            == [fine, Propagate(policy, archives[0], archives[1], fine, rings[1], p.timestamp)]
  {
    var fine := WritePoint(rings[0], archives[0], p);
    var r := Propagate(policy, archives[0], archives[1], fine, rings[1], p.timestamp);
    var first := rings[0 := fine];
    assert first[1 := r] == [fine, r];
    assert PropagateFrom(policy, archives, first, 1, p.timestamp)
        == PropagateFrom(policy, archives, first[1 := r], 2, p.timestamp);
    assert Point(Align(p.timestamp, archives[0].step), p.value) == p;
  }

  lemma {:induction false} HistoryMore<V>(step: int, samples: seq<Point<V>>, n: nat)
    requires 0 < step && n < |samples| && samples[n].timestamp % step == 0
    ensures History(step, samples[..n + 1]) == History(step, samples[..n])[samples[n].timestamp := samples[n].value]
  {
    assert samples[..n + 1][..n] == samples[..n];
  }

  lemma {:induction false} HistoryOfRun<V>(samples: seq<Point<V>>)
    requires LapInWindow(samples)
    ensures History(60, samples) == map[120 := samples[0].value, 86460 := samples[1].value, 86520 := samples[2].value,
                                        86580 := samples[3].value]
  {
    HistoryMore(60, samples, 0);
    HistoryMore(60, samples, 1);
    HistoryMore(60, samples, 2);
    HistoryMore(60, samples, 3);
    assert samples[..4] == samples;
  }

  /**
   * With SUM and factor 0 the coarse archive answers 0 for the window, which was
   * closed by a written timestamp and whose three values were written.
   */
  lemma {:induction false} SumIsLost(xff: real, archives: seq<Archive>, rings: seq<seq<Point<real>>>,
                                     samples: seq<Point<real>>)
    requires xff <= 0.0 && Shipped(archives) && Levels(archives) && Shaped(archives, rings) && Blank(rings)
    requires LapInWindow(samples)
    ensures RunLaws.Lookup(Run(AggregatePolicy(Sum, xff), archives, rings, samples)[1], archives[1], 86580) == Some(0.0)
    ensures ClosersWritten(History(60, samples), 180, 86400, 86580)
    ensures TotalIn(History(60, samples), 86460, 60, 3) == samples[1].value + samples[2].value + samples[3].value
  {
    var policy := AggregatePolicy(Sum, xff);
    WindowIsLost(policy, archives, rings, samples);
    FirstAnswer(Run(policy, archives, rings, samples)[1], archives[1], Point(86580, 0.0));
    HistoryOfRun(samples);
    TotalOfThree(History(60, samples), 86460, 60);
  }

  /** An archive answers for the timestamp in slot 0 with the value there. */
  lemma FirstAnswer(ring: seq<Point<real>>, a: Archive, p: Point<real>)
    requires Sound(a) && |ring| == a.points && ring[0] == p && p.timestamp != 0
    ensures RunLaws.Lookup(ring, a, p.timestamp) == Some(p.value)
  {
  }

  lemma {:induction false} TotalOfThree(m: map<int, real>, cur: int, step: int)
    requires cur in m && cur + step in m && cur + step + step in m
    ensures TotalIn(m, cur, step, 3) == m[cur] + m[cur + step] + m[cur + step + step]
  {
    assert TotalIn(m, cur + step, step, 2) == m[cur + step] + TotalIn(m, cur + step + step, step, 1);
    assert TotalIn(m, cur + step + step, step, 1) == m[cur + step + step] + TotalIn(m, cur + step + step + step, step, 0);
  }

  /** The run is regular and the archives are safe, so its result is defined. */
  lemma {:induction false} LostRunIsDefined<V>(policy: Policy<V>, archives: seq<Archive>, rings: seq<seq<Point<V>>>,
                                               samples: seq<Point<V>>)
    requires Shipped(archives) && Levels(archives) && Shaped(archives, rings) && LapInWindow(samples)
    ensures Regular(60, samples) && Safe(archives) && Defined(policy, archives, rings, samples)
  {
    ShippedIsSafe(archives);
    LapIsRegular(samples);
    SafeRunsAreDefined(policy, archives, rings, samples);
  }

  lemma ShippedIsSafe(archives: seq<Archive>)
    requires Shipped(archives)
    ensures Safe(archives)
  {
    ShippedCounts(archives);
  }

  /** Aligned timestamps that do not go back make a regular run, from twelve seconds per point on. */
  lemma AlignedIsRegular<V>(step: int, samples: seq<Point<V>>)
    requires POINT_SIZE <= step
    requires forall i :: 0 <= i < |samples| ==> step <= samples[i].timestamp < U32 && samples[i].timestamp % step == 0
    requires forall i, j :: 0 <= i < j < |samples| ==> samples[i].timestamp <= samples[j].timestamp
    ensures Regular(step, samples)
  {
    assert forall i :: 0 <= i < |samples| ==> Align(samples[i].timestamp, step) == samples[i].timestamp;
    forall i | 0 <= i < |samples|
      ensures (Align(samples[i].timestamp, step) - Align(samples[0].timestamp, step)) / step * POINT_SIZE < U32
    {
      CoarseRunsAreShort(step, samples, i);
    }
  }

  lemma LapIsRegular<V>(samples: seq<Point<V>>)
    requires LapInWindow(samples)
    ensures Regular(60, samples)
  {
    AlignedIsRegular(60, samples);
  }
}
