/** Whole runs of `whisper_write_value` on one file, from a freshly created one. */
module PyramidRuns {
  import opened Arith
  import opened Words
  import opened Ring
  import opened Window
  import opened Engine
  import opened Pyramid

  /** The rings after the samples were written, in order. */
  function Run<V>(policy: Policy<V>, archives: seq<Archive>, rings: seq<seq<Point<V>>>,
                  samples: seq<Point<V>>): (r: seq<seq<Point<V>>>)
    requires Levels(archives) && Shaped(archives, rings)
    ensures Shaped(archives, r)
  {
    if samples == [] then rings
    else
      var last := samples[|samples| - 1];
      WriteValue(policy, archives, Run(policy, archives, rings, samples[..|samples| - 1]), last.timestamp, last.value)
  }

  /** Slot writes made by the calls of a run, their own and those made by propagation. */
  function RunWrites<V>(policy: Policy<V>, archives: seq<Archive>, rings: seq<seq<Point<V>>>,
                        samples: seq<Point<V>>): (n: nat)
    requires Levels(archives) && Shaped(archives, rings)
    ensures |samples| <= n
  {
    if samples == [] then 0
    else
      var before, last := samples[..|samples| - 1], samples[|samples| - 1];
      RunWrites(policy, archives, rings, before)
      + SlotWrites(policy, archives, Run(policy, archives, rings, before), last.timestamp, last.value)
  }

  /**
   * The run has a defined result: every call of it keeps to whole slots and to
   * its read buffer.  Where it does not, the source tears points or overruns
   * its heap, and the rings above say nothing about the file.
   */
  predicate Defined<V>(policy: Policy<V>, archives: seq<Archive>, rings: seq<seq<Point<V>>>, samples: seq<Point<V>>)
    requires Levels(archives) && Shaped(archives, rings)
  {
    samples == [] ||
    var before, last := samples[..|samples| - 1], samples[|samples| - 1];
    && Defined(policy, archives, rings, before)
    && Accessible(policy, archives, Run(policy, archives, rings, before),
                  Point(Align(last.timestamp, archives[0].step), last.value))
  }

  lemma {:induction false} DefinedPrefix<V>(policy: Policy<V>, archives: seq<Archive>, rings: seq<seq<Point<V>>>,
                                            samples: seq<Point<V>>, n: nat)
    requires Levels(archives) && Shaped(archives, rings) && Defined(policy, archives, rings, samples) && n <= |samples|
    ensures Defined(policy, archives, rings, samples[..n])
  {
    if n < |samples| {
      var before := samples[..|samples| - 1];
      DefinedPrefix(policy, archives, rings, before, n);
      assert before[..n] == samples[..n];
    } else {
      assert samples[..n] == samples;
    }
  }

  /** The first sample of a run is the base of the finest ring. */
  lemma {:induction false} FirstSampleIsBase<V>(policy: Policy<V>, archives: seq<Archive>, rings: seq<seq<Point<V>>>,
                                                p: Point<V>)
    requires Levels(archives) && Shaped(archives, rings) && Blank(rings)
    ensures Run(policy, archives, rings, [p])[0][0].timestamp == Align(p.timestamp, archives[0].step)
  {
    var q := Point(Align(p.timestamp, archives[0].step), p.value);
    assert [p][..0] == [] && rings[0][0].timestamp == 0;
    PropagateFromFrame(policy, archives, rings[0 := WritePoint(rings[0], archives[0], q)], 1, q.timestamp, 0);
  }

  /** A second sample off the slots of the first leaves no defined result. */
  lemma {:induction false} OffSlotIsUndefined<V>(policy: Policy<V>, archives: seq<Archive>, rings: seq<seq<Point<V>>>,
                                                 p: Point<V>, q: Point<V>)
    requires Levels(archives) && Shaped(archives, rings) && Blank(rings) && 0 < p.timestamp
    requires Align(p.timestamp, archives[0].step) == p.timestamp && Align(q.timestamp, archives[0].step) == q.timestamp
    requires ByteDistance(archives[0], p.timestamp, q.timestamp) % POINT_SIZE != 0
    ensures !Defined(policy, archives, rings, [p, q])
  {
    assert [p, q][..1] == [p];
    FirstSampleIsBase(policy, archives, rings, p);
  }

  /** Below twelve seconds per point, two samples far enough apart are enough for a run without a defined result. */
  lemma {:induction false} OverflowIsUndefined<V>(policy: Policy<V>, archives: seq<Archive>, rings: seq<seq<Point<V>>>,
                                                  p: Point<V>, q: Point<V>)
    requires Levels(archives) && Shaped(archives, rings) && Blank(rings) && archives[0].step < POINT_SIZE
    requires 0 < p.timestamp && p.timestamp % archives[0].step == 0
    requires q.timestamp == p.timestamp + FIRST_OVERFLOW * archives[0].step < U32
    ensures !Defined(policy, archives, rings, [p, q])
  {
    ModShift(p.timestamp, FIRST_OVERFLOW, archives[0].step);
    FirstOverflowOffSlot(archives[0], p.timestamp, q.timestamp);
    OffSlotIsUndefined(policy, archives, rings, p, q);
  }

  /** Archives on which every call keeps to its slots and buffers, whatever is stored. */
  predicate Safe(archives: seq<Archive>) {
    && Levels(archives) && Roomy(archives)
    && forall k :: 0 <= k < |archives| ==> POINT_SIZE <= archives[k].step
  }

  /** On safe archives every run is defined, in order or not. */
  lemma {:induction false} SafeRunsAreDefined<V>(policy: Policy<V>, archives: seq<Archive>, rings: seq<seq<Point<V>>>,
                                                 samples: seq<Point<V>>)
    requires Safe(archives) && Shaped(archives, rings)
    ensures Defined(policy, archives, rings, samples)
  {
    if samples != [] {
      var before, last := samples[..|samples| - 1], samples[|samples| - 1];
      SafeRunsAreDefined(policy, archives, rings, before);
      RoomyAccess(policy, archives, Run(policy, archives, rings, before),
                  Point(Align(last.timestamp, archives[0].step), last.value));
    }
  }

  /** The value last written for each aligned timestamp. */
  function History<V>(step: int, samples: seq<Point<V>>): map<int, V>
    requires 0 < step
  {
    if samples == [] then map[]
    else
      var last := samples[|samples| - 1];
      History(step, samples[..|samples| - 1])[Align(last.timestamp, step) := last.value]
  }

  /** The aligned timestamp of the last sample. */
  function Latest<V>(step: int, samples: seq<Point<V>>): int
    requires 0 < step
  {
    if samples == [] then 0 else Align(samples[|samples| - 1].timestamp, step)
  }

  /** Sample `i` falls into the period of `step` seconds that begins at `u`. */
  predicate FallsInto<V>(samples: seq<Point<V>>, i: int, u: int, step: int) {
    0 <= i < |samples| && u <= samples[i].timestamp < u + step
  }

  /**
   * The history has a timestamp exactly if it is a multiple of the step and some
   * sample falls into its period, and the value is that of the last such sample.
   */
  lemma {:induction false} HistoryIs<V>(step: int, samples: seq<Point<V>>, u: int)
    requires 0 < step
    ensures u in History(step, samples) <==> u % step == 0 && exists i :: FallsInto(samples, i, u, step)
    ensures forall i :: u % step == 0 && FallsInto(samples, i, u, step)
                        && (forall j :: i < j < |samples| ==> !FallsInto(samples, j, u, step))
                        ==> u in History(step, samples) && History(step, samples)[u] == samples[i].value
  {
    if samples != [] {
      var before, n := samples[..|samples| - 1], |samples| - 1;
      HistoryIs(step, before, u);
      AlignIs(samples[n].timestamp, step, u);
      assert forall i :: 0 <= i < n ==> (FallsInto(samples, i, u, step) <==> FallsInto(before, i, u, step));
      assert u % step == 0 ==> (u == Align(samples[n].timestamp, step) <==> FallsInto(samples, n, u, step));
    }
  }

  /** The newest timestamp of a run in order is the multiple of the step whose period the last sample falls into. */
  lemma LatestIs<V>(step: int, samples: seq<Point<V>>, u: int)
    requires 0 < step && samples != []
    ensures Latest(step, samples) == u <==> u % step == 0 && FallsInto(samples, |samples| - 1, u, step)
  {
    AlignIs(samples[|samples| - 1].timestamp, step, u);
  }

  ghost predicate Blank<V>(rings: seq<seq<Point<V>>>) {
    forall k :: 0 <= k < |rings| ==> forall j :: 0 <= j < |rings[k]| ==> rings[k][j].timestamp == 0
  }

  /** A run in order: 32-bit timestamps that do not go back by a step, none aligned to 0. */
  ghost predicate Ordered<V>(step: int, samples: seq<Point<V>>)
    requires 0 < step
  {
    && (forall i :: 0 <= i < |samples| ==> step <= samples[i].timestamp < U32)
    && (forall i, j :: 0 <= i < j < |samples| ==>
          Align(samples[i].timestamp, step) <= Align(samples[j].timestamp, step))
  }

  /** A regular run: in order, over a span whose length in bytes of the finest archive is 32-bit. */
  ghost predicate Regular<V>(step: int, samples: seq<Point<V>>)
    requires 0 < step
  {
    && Ordered(step, samples)
    && (forall i :: 0 <= i < |samples| ==>
          (Align(samples[i].timestamp, step) - Align(samples[0].timestamp, step)) / step * POINT_SIZE < U32)
  }

  /** From twelve seconds per point on, the span of a run is no restriction. */
  lemma CoarseRunsAreShort<V>(step: int, samples: seq<Point<V>>, i: int)
    requires POINT_SIZE <= step && 0 <= i < |samples|
    requires 0 <= Align(samples[0].timestamp, step) <= Align(samples[i].timestamp, step) < U32
    ensures (Align(samples[i].timestamp, step) - Align(samples[0].timestamp, step)) / step * POINT_SIZE < U32
  {
    DivAntitone(Align(samples[i].timestamp, step) - Align(samples[0].timestamp, step), POINT_SIZE, step);
  }

  /** All but the last sample of a run in order, and where the last one stands. */
  lemma OrderedPrefix<V>(step: int, samples: seq<Point<V>>)
    requires 0 < step && samples != [] && Ordered(step, samples)
    ensures Ordered(step, samples[..|samples| - 1])
    ensures var t := Align(samples[|samples| - 1].timestamp, step);
            0 < t < U32 && t % step == 0 && Latest(step, samples[..|samples| - 1]) <= t
  {
    var before := samples[..|samples| - 1];
    assert forall i :: 0 <= i < |before| ==> before[i] == samples[i];
    RoundDown(samples[|samples| - 1].timestamp, step);
  }

  /** All but the last sample of a regular run, and what the last one adds. */
  lemma RegularPrefix<V>(step: int, samples: seq<Point<V>>)
    requires 0 < step && samples != [] && Regular(step, samples)
    ensures Regular(step, samples[..|samples| - 1])
    ensures var t, origin := Align(samples[|samples| - 1].timestamp, step), Align(samples[0].timestamp, step);
            0 < origin <= t < U32 && t % step == 0 && (t - origin) / step * POINT_SIZE < U32
            && Latest(step, samples[..|samples| - 1]) <= t
  {
    OrderedPrefix(step, samples);
    RoundDown(samples[0].timestamp, step);
  }

  lemma {:induction false} HistoryNewest<V>(step: int, samples: seq<Point<V>>)
    requires 0 < step && Ordered(step, samples)
    ensures Newest(History(step, samples), Latest(step, samples))
  {
    if samples != [] {
      OrderedPrefix(step, samples);
      HistoryNewest(step, samples[..|samples| - 1]);
    }
  }

  // Slot 0 of every ring, on any run.

  /** Slot 0 is empty or holds an aligned timestamp of the run. */
  ghost predicate Based<V>(ring: seq<Point<V>>, a: Archive, origin: int, now: int) {
    && Sound(a) && |ring| == a.points
    && (ring[0].timestamp == 0 || (0 < origin <= ring[0].timestamp <= now && ring[0].timestamp % a.step == 0))
  }

  lemma WriteBased<V>(policy: Policy<V>, archives: seq<Archive>, rings: seq<seq<Point<V>>>, p: Point<V>,
                      origin: int, now: int, k: int)
    requires Levels(archives) && Shaped(archives, rings) && 0 <= k < |archives|
    requires p.timestamp % archives[0].step == 0 && 0 < origin <= p.timestamp && now <= p.timestamp
    requires Based(rings[k], archives[k], origin, now)
    ensures Based(WriteAligned(policy, archives, rings, p)[k], archives[k], origin, p.timestamp)
  {
    WriteFrame(policy, archives, rings, p, k);
  }

  lemma {:induction false} RunBased<V>(policy: Policy<V>, archives: seq<Archive>, rings: seq<seq<Point<V>>>,
                                       samples: seq<Point<V>>, k: int)
    requires Levels(archives) && Shaped(archives, rings) && Blank(rings) && Regular(archives[0].step, samples)
    requires 0 <= k < |archives|
    ensures Based(Run(policy, archives, rings, samples)[k], archives[k],
                  if samples == [] then 0 else Align(samples[0].timestamp, archives[0].step),
                  Latest(archives[0].step, samples))
  {
    if samples == [] {
      assert rings[k][0].timestamp == 0;
    } else {
      var step, before, last := archives[0].step, samples[..|samples| - 1], samples[|samples| - 1];
      RegularPrefix(step, samples);
      RunBased(policy, archives, rings, before, k);
      WriteBased(policy, archives, Run(policy, archives, rings, before), Point(Align(last.timestamp, step), last.value),
                 Align(samples[0].timestamp, step), Latest(step, before), k);
    }
  }

  lemma {:induction false} StepsGrow(archives: seq<Archive>, k: nat)
    requires Levels(archives) && k < |archives|
    ensures archives[0].step <= archives[k].step
  {
    if k > 0 {
      StepsGrow(archives, k - 1);
    }
  }

  /** Distances at every level are in range when the run's span is, at the finest one. */
  lemma BasedInRange<V>(ring: seq<Point<V>>, a: Archive, step: int, origin: int, now: int, t: int)
    requires Based(ring, a, origin, now) && ring[0].timestamp != 0 && 0 < step <= a.step && now <= t < U32
    requires (t - origin) / step * POINT_SIZE < U32
    ensures InRange(a, ring[0].timestamp, t)
  {
    DivMonotone(t - ring[0].timestamp, t - origin, a.step);
    DivAntitone(t - origin, step, a.step);
  }

  /** A lap replaces the timestamp of slot 0 by one that opens a window exactly if the old one did. */
  lemma LapKeepsOpening(hi: Archive, lo: Archive, base: int, t: int)
    requires Tiles(hi, lo) && InRange(hi, base, t) && base % hi.step == 0 && t % hi.step == 0
    requires Slot(hi, base, t) == 0
    ensures OpensWindow(hi, lo, t) <==> OpensWindow(hi, lo, base)
  {
    SlotIsHome(hi, base, t);
    var q := LapMultiple(hi.step, Count(hi, lo), hi.points, base, t);
    assert lo.step == Count(hi, lo) * hi.step;
    ModShift(base - hi.step, q, lo.step);
  }

  /** Whole laps of a ring of whole windows are whole windows. */
  lemma LapMultiple(h: int, n: int, p: int, base: int, t: int) returns (q: int)
    requires 0 < h && 0 < n && 0 < p && p % n == 0 && base % h == 0 && t % h == 0
    requires (t / h - base / h) % p == 0
    ensures t == base + q * (n * h)
  {
    var x := t / h - base / h;
    var z, w := x / p, p / n;
    q := z * w;
    assert t - base == x * h;
    assert x == z * p && p == w * n;
    LapInWindows(h, n, w, z);
  }

  lemma LapInWindows(h: int, n: int, w: int, z: int)
    ensures (z * (w * n)) * h == (z * w) * (n * h)
  {
    assert z * (w * n) == (z * w) * n;
    assert ((z * w) * n) * h == (z * w) * (n * h);
  }

  /** A ring that has points keeps opening windows, or not, through every write and every lap. */
  lemma OpeningKept<V>(policy: Policy<V>, archives: seq<Archive>, rings: seq<seq<Point<V>>>, p: Point<V>, k: int)
    requires Chain(archives) && Shaped(archives, rings) && 0 <= k < |archives| - 1 && rings[k][0].timestamp != 0
    requires p.timestamp % archives[0].step == 0 && p.timestamp != 0
    requires InRange(archives[k], rings[k][0].timestamp, p.timestamp)
    requires rings[k][0].timestamp % archives[k].step == 0
    ensures var r := WriteAligned(policy, archives, rings, p);
            && r[k][0].timestamp != 0
            && (OpensWindow(archives[k], archives[k + 1], r[k][0].timestamp)
                <==> OpensWindow(archives[k], archives[k + 1], rings[k][0].timestamp))
  {
    var r: seq<seq<Point<V>>> := WriteAligned(policy, archives, rings, p);
    WriteFrame(policy, archives, rings, p, k);
    if r[k] != rings[k] && WriteSlot(rings[k], archives[k], p.timestamp) == 0 {
      assert Tiles(archives[k], archives[k + 1]);
      LapKeepsOpening(archives[k], archives[k + 1], rings[k][0].timestamp, p.timestamp);
    }
  }

  /** Slot 0 of every ring is empty or holds a multiple of its step. */
  ghost predicate BasesAligned<V>(archives: seq<Archive>, rings: seq<seq<Point<V>>>)
    requires Levels(archives) && Shaped(archives, rings)
  {
    forall k :: 0 <= k < |archives| && rings[k][0].timestamp != 0 ==> rings[k][0].timestamp % archives[k].step == 0
  }

  /** If slot 0 of every ring opens a window after a write, it did so before it. */
  lemma OpenedBefore<V>(policy: Policy<V>, archives: seq<Archive>, rings: seq<seq<Point<V>>>, p: Point<V>)
    requires Chain(archives) && Shaped(archives, rings) && Opened(archives, WriteAligned(policy, archives, rings, p))
    requires p.timestamp % archives[0].step == 0 && p.timestamp != 0
    requires AllInRange(archives, rings, p.timestamp) && BasesAligned(archives, rings)
    ensures Opened(archives, rings)
  {
    forall k | 1 <= k < |archives| && rings[k - 1][0].timestamp != 0
      ensures OpensWindow(archives[k - 1], archives[k], rings[k - 1][0].timestamp)
    {
      OpeningKept(policy, archives, rings, p, k - 1);
    }
  }

  /** Distances along a regular run never leave the 32-bit range, at any level. */
  lemma {:induction false} RunInRange<V>(policy: Policy<V>, archives: seq<Archive>, rings: seq<seq<Point<V>>>,
                                         samples: seq<Point<V>>, origin: int, t: int)
    requires Levels(archives) && Shaped(archives, rings) && Blank(rings) && Regular(archives[0].step, samples)
    requires samples != [] ==> Align(samples[0].timestamp, archives[0].step) == origin
    requires Latest(archives[0].step, samples) <= t < U32 && (t - origin) / archives[0].step * POINT_SIZE < U32
    ensures AllInRange(archives, Run(policy, archives, rings, samples), t)
    ensures BasesAligned(archives, Run(policy, archives, rings, samples))
  {
    var r: seq<seq<Point<V>>> := Run(policy, archives, rings, samples);
    forall k | 0 <= k < |archives| && r[k][0].timestamp != 0
      ensures InRange(archives[k], r[k][0].timestamp, t) && r[k][0].timestamp % archives[k].step == 0
    {
      RunBased(policy, archives, rings, samples, k);
      StepsGrow(archives, k);
      BasedInRange(r[k], archives[k], archives[0].step, origin, Latest(archives[0].step, samples), t);
    }
  }

  /**
   * Refinement over whole runs.  After any regular run with a defined result,
   * every ring of the file stands for its level of the pyramid over the run's
   * history, if slot 0 of the rings that are propagated from opens a window.
   */
  lemma {:induction false} OpenedRunsRefine<V(!new)>(policy: Policy<V>, archives: seq<Archive>,
                                                     rings: seq<seq<Point<V>>>, samples: seq<Point<V>>)
    requires Chain(archives) && Shaped(archives, rings) && Blank(rings) && Regular(archives[0].step, samples)
    requires Defined(policy, archives, rings, samples) && Opened(archives, Run(policy, archives, rings, samples))
    ensures FileRefines(policy, archives, Run(policy, archives, rings, samples),
                        History(archives[0].step, samples), Latest(archives[0].step, samples))
  {
    var step := archives[0].step;
    if samples == [] {
      BlankRefines(policy, archives, rings);
    } else {
      var before, last := samples[..|samples| - 1], samples[|samples| - 1];
      var t, origin := Align(last.timestamp, step), Align(samples[0].timestamp, step);
      var r := Run(policy, archives, rings, before);
      RegularPrefix(step, samples);
      RunInRange(policy, archives, rings, before, origin, t);
      RunInRange(policy, archives, rings, samples, origin, t);
      OpenedBefore(policy, archives, r, Point(t, last.value));
      OpenedRunsRefine(policy, archives, rings, before);
      HistoryNewest(step, samples);
      HistoryNewest(step, before);
      forall k | 0 <= k < |archives|
        ensures Refines(Run(policy, archives, rings, samples)[k], archives[k],
                        Level(policy, archives, History(step, samples), k), t)
      {
        WriteRefinesLevel(policy, archives, r, History(step, before), Latest(step, before), Point(t, last.value), k);
      }
    }
  }

  lemma BlankRefines<V(!new)>(policy: Policy<V>, archives: seq<Archive>, rings: seq<seq<Point<V>>>)
    requires Levels(archives) && Shaped(archives, rings) && Blank(rings)
    ensures FileRefines(policy, archives, rings, map[], 0)
  {
    forall k | 0 <= k < |archives| ensures Refines(rings[k], archives[k], Level(policy, archives, map[], k), 0) {
      LevelKeys(policy, archives, map[], k);
      assert forall j :: 0 <= j < |rings[k]| ==> rings[k][j].timestamp == 0;
    }
  }
}
