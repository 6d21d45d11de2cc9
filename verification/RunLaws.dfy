/** The aggregate laws read off the rings themselves, after whole runs. */
module RunLaws {
  import opened Ring
  import opened Engine
  import opened Pyramid
  import opened PyramidRuns
  import opened Aggregates
  import opened Alignment

  /** What an archive has for timestamp `t`: the point in its home slot, if it carries `t`. */
  function Lookup<V>(ring: seq<Point<V>>, a: Archive, t: int): Option<V>
    requires Sound(a) && |ring| == a.points
  {
    var j := (t / a.step - ring[0].timestamp / a.step) % a.points;
    if t != 0 && ring[j].timestamp == t then Some(ring[j].value) else None
  }

  /** Within reach, an archive has exactly what the map it stands for has. */
  lemma LookupIsMap<V(!new)>(ring: seq<Point<V>>, a: Archive, m: map<int, V>, now: int, t: int)
    requires Refines(ring, a, m, now) && now < t + a.points * a.step
    ensures Lookup(ring, a, t) == if t in m then Some(m[t]) else None
  {
    var j := Home(a, ring[0].timestamp, t);
    assert ring[j].timestamp != 0 ==> Kept(ring, a, m, j);
    assert t in m ==> Stored(ring, a, m, t);
  }

  lemma {:induction false} RingRefinesLevel<V(!new)>(policy: Policy<V>, archives: seq<Archive>, rings: seq<seq<Point<V>>>,
                                                     samples: seq<Point<V>>, k: int)
    requires Chain(archives) && Shaped(archives, rings) && Blank(rings) && Regular(archives[0].step, samples)
    requires Defined(policy, archives, rings, samples) && 0 <= k < |archives|
    requires Aligned(policy, archives, History(archives[0].step, samples))
    ensures Refines(Run(policy, archives, rings, samples)[k], archives[k],
                    Level(policy, archives, History(archives[0].step, samples), k), Latest(archives[0].step, samples))
    ensures Dividing(archives)
  {
    RunRefinesPyramid(policy, archives, rings, samples);
  }

  /** What was written last for a timestamp is what its archive answers, at every level. */
  lemma {:induction false} LookupIsLevel<V(!new)>(policy: Policy<V>, archives: seq<Archive>, rings: seq<seq<Point<V>>>,
                                                  samples: seq<Point<V>>, k: int, t: int)
    requires Chain(archives) && Shaped(archives, rings) && Blank(rings) && Regular(archives[0].step, samples)
    requires Defined(policy, archives, rings, samples) && 0 <= k < |archives|
    requires Aligned(policy, archives, History(archives[0].step, samples))
    requires Latest(archives[0].step, samples) < t + archives[k].points * archives[k].step
    ensures var level := Level(policy, archives, History(archives[0].step, samples), k);
            Lookup(Run(policy, archives, rings, samples)[k], archives[k], t) == if t in level then Some(level[t]) else None
  {
    RingRefinesLevel(policy, archives, rings, samples, k);
    LookupIsMap(Run(policy, archives, rings, samples)[k], archives[k],
                Level(policy, archives, History(archives[0].step, samples), k), Latest(archives[0].step, samples), t);
  }

  /** With AVERAGE and a factor in (0, 1], archive `k` has a point exactly for full spans, and it is their mean. */
  lemma {:induction false} AveragesStoredExactlyWhen(xff: real, archives: seq<Archive>, rings: seq<seq<Point<real>>>,
                                                     samples: seq<Point<real>>, k: int, t: int)
    requires 0.0 < xff <= 1.0 && Chain(archives) && Shaped(archives, rings) && Blank(rings)
    requires Regular(archives[0].step, samples) && 0 <= k < |archives|
    requires Defined(AggregatePolicy(Average, xff), archives, rings, samples)
    requires Aligned(AggregatePolicy(Average, xff), archives, History(archives[0].step, samples))
    requires Latest(archives[0].step, samples) < t + archives[k].points * archives[k].step && t % archives[k].step == 0
    ensures var fine, hist := archives[0].step, History(archives[0].step, samples);
            var answer := Lookup(Run(AggregatePolicy(Average, xff), archives, rings, samples)[k], archives[k], t);
            && (answer.Some? <==> Full(hist, t - archives[k].step + fine, fine, FinePoints(archives, k)))
            && (answer.Some? ==> IsMean(hist, fine, FinePoints(archives, k), archives[k].step, t, answer.value))
  {
    RingRefinesLevel(AggregatePolicy(Average, xff), archives, rings, samples, k);
    LevelAverages(xff, archives, History(archives[0].step, samples),
                  Run(AggregatePolicy(Average, xff), archives, rings, samples)[k], Latest(archives[0].step, samples), k, t);
  }

  lemma {:induction false} LevelAverages(xff: real, archives: seq<Archive>, hist: map<int, real>, ring: seq<Point<real>>, now: int,
                                         k: int, t: int)
    requires 0.0 < xff <= 1.0 && Levels(archives) && Dividing(archives) && 0 <= k < |archives|
    requires Refines(ring, archives[k], Level(AggregatePolicy(Average, xff), archives, hist, k), now)
    requires now < t + archives[k].points * archives[k].step && t % archives[k].step == 0
    ensures var fine, answer := archives[0].step, Lookup(ring, archives[k], t);
            && (answer.Some? <==> Full(hist, t - archives[k].step + fine, fine, FinePoints(archives, k)))
            && (answer.Some? ==> IsMean(hist, fine, FinePoints(archives, k), archives[k].step, t, answer.value))
  {
    var level := Level(AggregatePolicy(Average, xff), archives, hist, k);
    LookupIsMap(ring, archives[k], level, now, t);
    MeanOfMeans(xff, archives, hist, k);
    FullSpansArePropagated(AggregatePolicy(Average, xff), archives, hist, k);
    assert t in level ==> IsMean(hist, archives[0].step, FinePoints(archives, k), archives[k].step, t, level[t]);
  }

  /** The total an archive answers for `n` successive timestamps. */
  function StoredTotal(ring: seq<Point<real>>, a: Archive, cur: int, n: nat): real
    requires Sound(a) && |ring| == a.points
    decreases n
  {
    if n == 0 then 0.0
    else
      var answer := Lookup(ring, a, cur);
      (if answer.Some? then answer.value else 0.0) + StoredTotal(ring, a, cur + a.step, n - 1)
  }

  lemma {:induction false} StoredTotalIsTotal(ring: seq<Point<real>>, a: Archive, m: map<int, real>, now: int, cur: int, n: nat)
    requires Refines(ring, a, m, now) && now < cur + a.points * a.step
    ensures StoredTotal(ring, a, cur, n) == TotalIn(m, cur, a.step, n)
    decreases n
  {
    if n > 0 {
      LookupIsMap(ring, a, m, now, cur);
      StoredTotalIsTotal(ring, a, m, now, cur + a.step, n - 1);
    }
  }

  /**
   * With SUM and factor 0, over `c` whole windows within the reach of archive
   * `k`, whose closing timestamps were all written, the archive's points add up
   * to the values last written for all the finest timestamps of the stretch.
   */
  lemma StoredSumsAreConserved(xff: real, archives: seq<Archive>, rings: seq<seq<Point<real>>>,
                               samples: seq<Point<real>>, k: int, from: int, c: nat)
    requires xff <= 0.0 && Chain(archives) && Shaped(archives, rings) && Blank(rings)
    requires Regular(archives[0].step, samples) && 0 <= k < |archives|
    requires Defined(AggregatePolicy(Sum, xff), archives, rings, samples)
    requires Aligned(AggregatePolicy(Sum, xff), archives, History(archives[0].step, samples))
    requires from % archives[k].step == 0
    requires Latest(archives[0].step, samples) < from + archives[k].step + archives[k].points * archives[k].step
    requires 0 < k ==> ClosersWritten(History(archives[0].step, samples), archives[1].step, from, from + c * archives[k].step)
    ensures StoredTotal(Run(AggregatePolicy(Sum, xff), archives, rings, samples)[k], archives[k], from + archives[k].step, c)
         == TotalIn(History(archives[0].step, samples), from + archives[0].step, archives[0].step, c * FinePoints(archives, k))
  {
    var policy, hist := AggregatePolicy(Sum, xff), History(archives[0].step, samples);
    RingRefinesLevel(policy, archives, rings, samples, k);
    LevelSums(xff, archives, hist, Run(policy, archives, rings, samples)[k], Latest(archives[0].step, samples), k, from, c);
  }

  lemma LevelSums(xff: real, archives: seq<Archive>, hist: map<int, real>, ring: seq<Point<real>>, now: int,
                  k: int, from: int, c: nat)
    requires xff <= 0.0 && Levels(archives) && Dividing(archives) && 0 <= k < |archives| && from % archives[k].step == 0
    requires Refines(ring, archives[k], Level(AggregatePolicy(Sum, xff), archives, hist, k), now)
    requires now < from + archives[k].step + archives[k].points * archives[k].step
    requires 0 < k ==> ClosersWritten(hist, archives[1].step, from, from + c * archives[k].step)
    ensures StoredTotal(ring, archives[k], from + archives[k].step, c)
         == TotalIn(hist, from + archives[0].step, archives[0].step, c * FinePoints(archives, k))
  {
    SumIsConserved(xff, archives, hist, k, from, c);
    StoredTotalIsTotal(ring, archives[k], Level(AggregatePolicy(Sum, xff), archives, hist, k), now, from + archives[k].step, c);
  }

  // Methods the source does not compute.

  ghost predicate Zeros(ring: seq<Point<real>>) {
    forall j :: 0 <= j < |ring| && ring[j].timestamp != 0 ==> ring[j].value == 0.0
  }

  ghost predicate CoarseZeros(rings: seq<seq<Point<real>>>) {
    forall k :: 1 <= k < |rings| ==> Zeros(rings[k])
  }

  lemma {:induction false} PropagatesZeros(how: Method, xff: real, archives: seq<Archive>, rings: seq<seq<Point<real>>>,
                                           k: int, t: int)
    requires Unhandled(how) && Levels(archives) && Shaped(archives, rings) && 1 <= k <= |archives| && CoarseZeros(rings)
    ensures CoarseZeros(PropagateFrom(AggregatePolicy(how, xff), archives, rings, k, t))
    decreases |archives| - k
  {
    if k < |archives| && t % archives[k].step == 0 {
      var r := Propagate(AggregatePolicy(how, xff), archives[k - 1], archives[k], rings[k - 1], rings[k], t);
      assert Zeros(rings[k]);
      assert Zeros(r);
      PropagatesZeros(how, xff, archives, rings[k := r], k + 1, t);
    }
  }

  /**
   * With LAST, MAX, MIN or no method, after any run with a defined result, every
   * point of every archive but the finest has the value 0.
   */
  lemma {:induction false} UnhandledStoresZeros(how: Method, xff: real, archives: seq<Archive>,
                                                rings: seq<seq<Point<real>>>, samples: seq<Point<real>>, k: int, j: int)
    requires Unhandled(how) && Levels(archives) && Shaped(archives, rings) && Blank(rings)
    requires Defined(AggregatePolicy(how, xff), archives, rings, samples)
    requires 1 <= k < |archives| && 0 <= j < archives[k].points
    ensures var p := Run(AggregatePolicy(how, xff), archives, rings, samples)[k][j];
            p.timestamp != 0 ==> p.value == 0.0
  {
    RunZeros(how, xff, archives, rings, samples);
    assert Zeros(Run(AggregatePolicy(how, xff), archives, rings, samples)[k]);
  }

  lemma {:induction false} RunZeros(how: Method, xff: real, archives: seq<Archive>, rings: seq<seq<Point<real>>>,
                                    samples: seq<Point<real>>)
    requires Unhandled(how) && Levels(archives) && Shaped(archives, rings) && Blank(rings)
    ensures CoarseZeros(Run(AggregatePolicy(how, xff), archives, rings, samples))
  {
    if samples != [] {
      var before, last := samples[..|samples| - 1], samples[|samples| - 1];
      var r := Run(AggregatePolicy(how, xff), archives, rings, before);
      var p := Point(Align(last.timestamp, archives[0].step), last.value);
      RunZeros(how, xff, archives, rings, before);
      PropagatesZeros(how, xff, archives, r[0 := WritePoint(r[0], archives[0], p)], 1, p.timestamp);
    } else {
      assert forall k :: 0 <= k < |rings| ==> forall j :: 0 <= j < |rings[k]| ==> rings[k][j].timestamp == 0;
    }
  }

  /** A point of a level is what is documented for its window exactly with average and sum, and where 0 is right. */
  lemma {:induction false} LevelDocumentedExactlyWhen(how: Method, xff: real, archives: seq<Archive>, hist: map<int, real>,
                                                      k: nat, t: int)
    requires Levels(archives) && 0 < k < |archives|
    requires t in Level(AggregatePolicy(how, xff), archives, hist, k)
    requires Below(archives[k - 1], archives[k], Level(AggregatePolicy(how, xff), archives, hist, k - 1), t) != []
    ensures var policy := AggregatePolicy(how, xff);
            var vs := Below(archives[k - 1], archives[k], Level(policy, archives, hist, k - 1), t);
            Documented(how, vs, Level(policy, archives, hist, k)[t]) <==>
            how == Average || how == Sum || ZeroIsRight(how, vs)
  {
    var policy := AggregatePolicy(how, xff);
    LevelIsLift(policy, archives, hist, k);
    DocumentedExactlyWhen(how, Below(archives[k - 1], archives[k], Level(policy, archives, hist, k - 1), t));
  }
}
