/**
 * The two aggregation methods the source computes, and what they mean through
 * any number of archives: the mean of means is the true mean, and sums are
 * conserved.  Values are reals here; rounding is not modelled.
 */
module Aggregates {
  import opened Arith
  import opened Ring
  import opened Window
  import opened Engine
  import opened Pyramid

  /** The aggregation types of the configuration; only two are computed. */
  datatype Method = Undefined | Average | Sum | Last | Maximum | Minimum

  function Total(vs: seq<real>): real {
    if vs == [] then 0.0 else vs[0] + Total(vs[1..])
  }

  /** The value propagated for the known values; 0 for the methods the source does not handle. */
  function Aggregate(how: Method, vs: seq<real>): real {
    match how
    case Average => if vs == [] then 0.0 else Total(vs) / |vs| as real
    case Sum => Total(vs)
    case _ => 0.0
  }

  function AggregatePolicy(how: Method, xff: real): Policy<real> {
    Policy(vs => Aggregate(how, vs), xff)
  }

  lemma {:induction false} TotalAppend(a: seq<real>, b: seq<real>)
    ensures Total(a + b) == Total(a) + Total(b)
  {
    if a == [] {
      assert a + b == b;
    } else {
      assert (a + b)[1..] == a[1..] + b;
      TotalAppend(a[1..], b);
    }
  }

  /** The accumulation loops of `whisper_aggregate_values`. */
  method AggregateValues(values: array<real>, known: int, how: Method) returns (value: real)
    requires 0 <= known <= values.Length
    requires how == Average ==> 0 < known
    ensures value == Aggregate(how, values[..known])
    ensures how == Sum ==> value == Total(values[..known])
    ensures how == Average ==> value * known as real == Total(values[..known])
    ensures how != Average && how != Sum ==> value == 0.0
  {
    value := 0.0;
    match how {
      case Average =>
        value := Accumulate(values, known);
        value := value / known as real;
      case Sum =>
        value := Accumulate(values, known);
      case _ =>
    }
  }

  /** The methods the source accepts and does not compute. */
  predicate Unhandled(how: Method) { how != Average && how != Sum }

  /** What the configuration documents for the values of a window. */
  predicate Documented(how: Method, vs: seq<real>, v: real)
    requires vs != []
  {
    match how
    case Average => v * |vs| as real == Total(vs)
    case Sum => v == Total(vs)
    case Last => v == vs[|vs| - 1]
    case Maximum => v in vs && forall i :: 0 <= i < |vs| ==> vs[i] <= v
    case Minimum => v in vs && forall i :: 0 <= i < |vs| ==> v <= vs[i]
    case Undefined => false
  }

  /** The windows for which the 0 that the source stores is what is documented. */
  predicate ZeroIsRight(how: Method, vs: seq<real>)
    requires vs != []
  {
    match how
    case Last => vs[|vs| - 1] == 0.0
    case Maximum => 0.0 in vs && forall i :: 0 <= i < |vs| ==> vs[i] <= 0.0
    case Minimum => 0.0 in vs && forall i :: 0 <= i < |vs| ==> 0.0 <= vs[i]
    case _ => false
  }

  /** The source aggregates as documented exactly with average and sum, and where 0 is right by chance. */
  lemma DocumentedExactlyWhen(how: Method, vs: seq<real>)
    requires vs != []
    ensures Documented(how, vs, Aggregate(how, vs)) <==> how == Average || how == Sum || ZeroIsRight(how, vs)
  {
    if how == Average {
      assert Aggregate(how, vs) * |vs| as real == Total(vs);
    }
  }

  /** The maximum of 5, 7 and 6 is stored as 0. */
  lemma MaximumIsNotComputed()
    ensures Aggregate(Maximum, [5.0, 7.0, 6.0]) == 0.0 && Documented(Maximum, [5.0, 7.0, 6.0], 7.0)
  {
    assert [5.0, 7.0, 6.0][1] == 7.0;
  }

  method Accumulate(values: array<real>, known: int) returns (value: real)
    requires 0 <= known <= values.Length
    ensures value == Total(values[..known])
  {
    value := 0.0;
    for i := 0 to known
      invariant value == Total(values[..i])
    {
      assert values[..i + 1] == values[..i] + [values[i]];
      TotalAppend(values[..i], [values[i]]);
      value := value + values[i];
    }
  }

  // The x-files factor.

  /** What the integer quotient makes of the factor: everything passes, whole windows pass, or nothing. */
  lemma PassesMeans(known: nat, n: int, xff: real)
    requires 0 < n && known <= n
    ensures xff <= 0.0 ==> Passes(known, n, xff)
    ensures 0.0 < xff <= 1.0 ==> (Passes(known, n, xff) <==> known == n)
    ensures 1.0 < xff ==> !Passes(known, n, xff)
  {
    if known == n {
      QuotientUnique(known, n, 1, 0);
    } else {
      QuotientUnique(known, n, 0, known);
    }
  }

  /** The ratio that the configuration documents. */
  predicate RatioMet(known: nat, n: int, xff: real)
    requires 0 < n
  {
    known as real / n as real >= xff
  }

  /** The source follows the documented ratio exactly unless a partial window reaches a positive factor. */
  lemma RatioFollowedExactlyWhen(known: nat, n: int, xff: real)
    requires 0 < n && known <= n
    ensures (Passes(known, n, xff) <==> RatioMet(known, n, xff))
       <==> (known == n || xff <= 0.0 || known as real < xff * n as real)
  {
    PassesMeans(known, n, xff);
    RatioIs(known, n, xff);
    if known == n {
      assert known as real / n as real == 1.0;
    }
  }

  lemma RatioIs(known: nat, n: int, xff: real)
    requires 0 < n
    ensures RatioMet(known, n, xff) <==> xff * n as real <= known as real
  {
    var q := known as real / n as real;
    assert known as real == q * n as real;
    if q < xff {
      assert 0.0 < (xff - q) * n as real;
    } else {
      assert 0.0 <= (q - xff) * n as real;
    }
  }

  /**
   * For windows of `n` points, however many are known, the source follows the
   * ratio exactly if the factor is 0 or only complete windows reach it.
   */
  lemma RatioAlwaysFollowedExactlyWhen(n: int, xff: real)
    requires 0 < n
    ensures (forall known: nat :: known <= n ==> (Passes(known, n, xff) <==> RatioMet(known, n, xff)))
       <==> (xff <= 0.0 || (n - 1) as real < xff * n as real)
  {
    if xff <= 0.0 || (n - 1) as real < xff * n as real {
      forall known: nat | known <= n ensures Passes(known, n, xff) <==> RatioMet(known, n, xff) {
        RatioFollowedExactlyWhen(known, n, xff);
        assert known < n ==> known as real <= (n - 1) as real;
      }
    } else {
      var most: nat := n - 1;
      RatioFollowedExactlyWhen(most, n, xff);
      assert !(Passes(most, n, xff) <==> RatioMet(most, n, xff));
    }
  }

  lemma RatioNotFollowed()
    ensures RatioMet(2, 3, 0.5) && !Passes(2, 3, 0.5)
  {
    assert 2.0 / 3.0 >= 0.5;
    PassesMeans(2, 3, 0.5);
  }

  // Windows tile.

  /** All `n` timestamps from `cur` on are in the map. */
  predicate Full<V>(m: map<int, V>, cur: int, step: int, n: nat)
    decreases n
  {
    n == 0 || (cur in m && Full(m, cur + step, step, n - 1))
  }

  lemma {:induction false} FullIsAllKnown<V>(m: map<int, V>, cur: int, step: int, n: nat)
    ensures Full(m, cur, step, n) <==> |KnownIn(m, cur, step, n)| == n
    decreases n
  {
    if n > 0 {
      FullIsAllKnown(m, cur + step, step, n - 1);
    }
  }

  /** Two stretches of timestamps end to end are one. */
  lemma {:induction false} Joined<V>(m: map<int, V>, cur: int, step: int, a: nat, b: nat)
    ensures Full(m, cur, step, a + b) <==> Full(m, cur, step, a) && Full(m, At(cur, step, a), step, b)
    decreases a
  {
    if a > 0 {
      AtNext(cur, step, a - 1);
      Joined(m, cur + step, step, a - 1, b);
    } else {
      assert At(cur, step, 0) == cur;
    }
  }

  /** The sum of what a map holds at `n` successive timestamps. */
  function TotalIn(m: map<int, real>, cur: int, step: int, n: nat): real
    decreases n
  {
    if n == 0 then 0.0
    else (if cur in m then m[cur] else 0.0) + TotalIn(m, cur + step, step, n - 1)
  }

  lemma {:induction false} TotalOfKnown(m: map<int, real>, cur: int, step: int, n: nat)
    ensures Total(KnownIn(m, cur, step, n)) == TotalIn(m, cur, step, n)
    decreases n
  {
    if n > 0 {
      TotalOfKnown(m, cur + step, step, n - 1);
      var rest := KnownIn(m, cur + step, step, n - 1);
      if cur in m {
        assert KnownIn(m, cur, step, n)[1..] == rest;
      } else {
        assert KnownIn(m, cur, step, n) == rest;
      }
    }
  }

  lemma {:induction false} TotalJoined(m: map<int, real>, cur: int, step: int, a: nat, b: nat)
    ensures TotalIn(m, cur, step, a + b) == TotalIn(m, cur, step, a) + TotalIn(m, At(cur, step, a), step, b)
    decreases a
  {
    if a > 0 {
      AtNext(cur, step, a - 1);
      TotalJoined(m, cur + step, step, a - 1, b);
    } else {
      assert At(cur, step, 0) == cur;
    }
  }

  // Products as repeated addition, which is how windows are counted off below.

  function Times(c: nat, n: nat): nat {
    if c == 0 then 0 else n + Times(c - 1, n)
  }

  lemma {:induction false} TimesIs(c: nat, n: nat)
    ensures Times(c, n) == c * n
  {
    if c > 0 {
      TimesIs(c - 1, n);
      assert c * n == (c - 1) * n + n;
    }
  }

  /** The stretch after a span of `n` fine points, `h` seconds long, starts `h` seconds later. */
  lemma AfterSpan(first: int, fine: int, n: nat, h: int)
    requires h == n * fine
    ensures At(first, fine, n) == first + h
  {
  }

  // Mean of means.

  /** `v` is the arithmetic mean of the `n` fine values of the span of `h` seconds that `t` closes. */
  predicate IsMean(hist: map<int, real>, fine: int, n: nat, h: int, t: int, v: real) {
    0 < n && Full(hist, t - h + fine, fine, n) && v == TotalIn(hist, t - h + fine, fine, n) / n as real
  }

  ghost predicate MeanLevel(m: map<int, real>, hist: map<int, real>, fine: int, n: nat, h: int) {
    forall t <- m :: IsMean(hist, fine, n, h, t, m[t])
  }

  /** Spans of fine points under successive points of a level of means are full, end to end. */
  lemma {:induction false} FullUnderMeans(m: map<int, real>, hist: map<int, real>, fine: int, n: nat, h: int, cur: int, c: nat)
    requires h == n * fine && MeanLevel(m, hist, fine, n, h) && Full(m, cur, h, c)
    ensures Full(hist, cur - h + fine, fine, Times(c, n))
    decreases c
  {
    if c > 0 {
      FullUnderMeans(m, hist, fine, n, h, cur + h, c - 1);
      AfterSpan(cur - h + fine, fine, n, h);
      Joined(hist, cur - h + fine, fine, n, Times(c - 1, n));
    }
  }

  /** `c` successive means over `n` fine points each, times `n`, add up to the fine total. */
  lemma {:induction false} SumOfMeans(m: map<int, real>, hist: map<int, real>, fine: int, n: nat, h: int, cur: int, c: nat)
    requires 0 < n && h == n * fine && MeanLevel(m, hist, fine, n, h) && Full(m, cur, h, c)
    ensures TotalIn(m, cur, h, c) * n as real == TotalIn(hist, cur - h + fine, fine, Times(c, n))
    decreases c
  {
    if c > 0 {
      var first := cur - h + fine;
      SumOfMeans(m, hist, fine, n, h, cur + h, c - 1);
      AfterSpan(first, fine, n, h);
      TotalJoined(hist, first, fine, n, Times(c - 1, n));
      assert IsMean(hist, fine, n, h, cur, m[cur]);
      MeanTimes(TotalIn(hist, first, fine, n), n as real, m[cur], TotalIn(m, cur + h, h, c - 1));
    }
  }

  lemma MeanTimes(x: real, n: real, v: real, rest: real)
    requires n > 0.0 && v == x / n
    ensures (v + rest) * n == x + rest * n
  {
    assert v * n == x;
  }

  lemma MeanOfMean(x: real, y: real, n: nat, c: nat)
    requires 0 < n && 0 < c && y * n as real == x
    ensures 0 < c * n && y / c as real == x / (c * n) as real
  {
    MulAtLeast(c, n);
    var r, s := n as real, c as real;
    assert (c * n) as real == s * r;
    QuotientOfQuotient(x, y, r, s);
  }

  lemma QuotientOfQuotient(x: real, y: real, r: real, s: real)
    requires r > 0.0 && s > 0.0 && y * r == x
    ensures s * r > 0.0 && y / s == x / (s * r)
  {
    var q := y / s;
    assert y == q * s;
    assert x == q * (s * r);
  }

  /** The point above a complete window of means is the mean over the whole window. */
  lemma LiftedMean(hi: Archive, lo: Archive, hist: map<int, real>, m: map<int, real>, fine: int, n: nat, t: int)
    requires Covers(hi, lo) && lo.step % hi.step == 0
    requires 0 < n && hi.step == n * fine && MeanLevel(m, hist, fine, n, hi.step)
    requires |Below(hi, lo, m, t)| == Count(hi, lo)
    ensures IsMean(hist, fine, Count(hi, lo) * n, lo.step, t, Aggregate(Average, Below(hi, lo, m, t)))
  {
    var c, cur := Count(hi, lo), t - lo.step + hi.step;
    FullIsAllKnown(m, cur, hi.step, c);
    TotalOfKnown(m, cur, hi.step, c);
    FullUnderMeans(m, hist, fine, n, hi.step, cur, c);
    SumOfMeans(m, hist, fine, n, hi.step, cur, c);
    TimesIs(c, n);
    MeanOfMean(TotalIn(hist, t - lo.step + fine, fine, c * n), TotalIn(m, cur, hi.step, c), n, c);
  }

  /** Averaging complete windows of a level of means gives a level of means. */
  lemma LiftMeans(xff: real, hi: Archive, lo: Archive, hist: map<int, real>, m: map<int, real>, fine: int, n: nat)
    requires 0.0 < xff && Covers(hi, lo) && lo.step % hi.step == 0
    requires 0 < n && hi.step == n * fine && MeanLevel(m, hist, fine, n, hi.step)
    ensures MeanLevel(Lift(AggregatePolicy(Average, xff), hi, lo, hist, m), hist, fine, Count(hi, lo) * n, lo.step)
  {
    var l := Lift(AggregatePolicy(Average, xff), hi, lo, hist, m);
    forall t <- l ensures IsMean(hist, fine, Count(hi, lo) * n, lo.step, t, l[t]) {
      PassesMeans(|Below(hi, lo, m, t)|, Count(hi, lo), xff);
      LiftedMean(hi, lo, hist, m, fine, n, t);
    }
  }

  /** Fine points under one point of archive `k`. */
  function FinePoints(archives: seq<Archive>, k: nat): nat
    requires Levels(archives) && k < |archives|
  {
    if k == 0 then 1 else Count(archives[k - 1], archives[k]) * FinePoints(archives, k - 1)
  }

  lemma CountTimes(hi: Archive, lo: Archive, fine: int, n: nat)
    requires Covers(hi, lo) && lo.step % hi.step == 0 && 0 < n && hi.step == n * fine
    ensures 0 < Count(hi, lo) * n && lo.step == (Count(hi, lo) * n) * fine
  {
    var c := Count(hi, lo);
    assert lo.step == c * hi.step;
    assert c * (n * fine) == (c * n) * fine;
    MulAtLeast(c, n);
  }

  /** A point of archive `k` stands for as many seconds as its fine points do. */
  lemma {:induction false} FinePointsSpan(archives: seq<Archive>, k: nat)
    requires Levels(archives) && Dividing(archives) && k < |archives|
    ensures 0 < FinePoints(archives, k) && archives[k].step == FinePoints(archives, k) * archives[0].step
  {
    if k > 0 {
      FinePointsSpan(archives, k - 1);
      CountTimes(archives[k - 1], archives[k], archives[0].step, FinePoints(archives, k - 1));
    }
  }

  lemma OneIsMean(hist: map<int, real>, fine: int, t: int)
    requires t in hist
    ensures IsMean(hist, fine, 1, fine, t, hist[t])
  {
    assert TotalIn(hist, t, fine, 1) == hist[t] + TotalIn(hist, t + fine, fine, 0);
    assert Full(hist, t + fine, fine, 0);
  }

  /**
   * Mean of means: with AVERAGE and a positive factor, every point of every
   * level is the mean of all the finest points in the span it closes.
   */
  lemma {:induction false} MeanOfMeans(xff: real, archives: seq<Archive>, hist: map<int, real>, k: nat)
    requires 0.0 < xff && Levels(archives) && Dividing(archives) && k < |archives|
    ensures MeanLevel(Level(AggregatePolicy(Average, xff), archives, hist, k), hist,
                      archives[0].step, FinePoints(archives, k), archives[k].step)
  {
    if k == 0 {
      forall t <- hist ensures IsMean(hist, archives[0].step, 1, archives[0].step, t, hist[t]) {
        OneIsMean(hist, archives[0].step, t);
      }
    } else {
      MeanOfMeans(xff, archives, hist, k - 1);
      FinePointsSpan(archives, k - 1);
      LiftMeans(xff, archives[k - 1], archives[k], hist, Level(AggregatePolicy(Average, xff), archives, hist, k - 1),
                archives[0].step, FinePoints(archives, k - 1));
    }
  }

  // Which coarse points there are.

  /** Every full span of `n` fine points whose closing timestamp is a multiple of `h` has its point in `m`. */
  ghost predicate HasFullSpans<V>(m: map<int, V>, hist: map<int, V>, fine: int, n: nat, h: int)
    requires 0 < h
  {
    forall t :: t % h == 0 && Full(hist, t - h + fine, fine, n) ==> t in m
  }

  lemma {:induction false} FullSpansPresent<V>(m: map<int, V>, hist: map<int, V>, fine: int, n: nat, h: int, cur: int, c: nat)
    requires 0 < h == n * fine && cur % h == 0
    requires HasFullSpans(m, hist, fine, n, h) && Full(hist, cur - h + fine, fine, Times(c, n))
    ensures Full(m, cur, h, c)
    decreases c
  {
    if c > 0 {
      Joined(hist, cur - h + fine, fine, n, Times(c - 1, n));
      AfterSpan(cur - h + fine, fine, n, h);
      ModShift(cur, 1, h);
      FullSpansPresent(m, hist, fine, n, h, cur + h, c - 1);
    }
  }

  lemma {:induction false} FullEnds<V>(m: map<int, V>, cur: int, step: int, n: nat)
    requires 0 < n && Full(m, cur, step, n)
    ensures At(cur, step, n - 1) in m
    decreases n
  {
    if n > 1 {
      FullEnds(m, cur + step, step, n - 1);
      AtNext(cur, step, n - 2);
    }
  }

  lemma {:induction false} SpanCompletes<V>(policy: Policy<V>, hi: Archive, lo: Archive, hist: map<int, V>, m: map<int, V>,
                                            fine: int, n: nat, t: int)
    requires 0.0 < policy.xff <= 1.0 && Covers(hi, lo) && lo.step % hi.step == 0 && 0 < n && hi.step == n * fine
    requires HasFullSpans(m, hist, fine, n, hi.step) && t % lo.step == 0
    requires Full(hist, t - lo.step + fine, fine, Count(hi, lo) * n)
    ensures t in Lift(policy, hi, lo, hist, m)
  {
    var c := Count(hi, lo);
    TimesIs(c, n);
    WindowPresent(hi, lo, hist, m, fine, n, t);
    PassesMeans(|Below(hi, lo, m, t)|, c, policy.xff);
    CountTimes(hi, lo, fine, n);
    FullEnds(hist, t - lo.step + fine, fine, c * n);
    AfterSpan(t - lo.step + fine, fine, c * n, lo.step);
    AtNext(t - lo.step, fine, c * n - 1);
  }

  lemma {:induction false} WindowPresent<V>(hi: Archive, lo: Archive, hist: map<int, V>, m: map<int, V>, fine: int, n: nat, t: int)
    requires Covers(hi, lo) && lo.step % hi.step == 0 && hi.step == n * fine
    requires HasFullSpans(m, hist, fine, n, hi.step) && t % lo.step == 0
    requires Full(hist, t - lo.step + fine, fine, Times(Count(hi, lo), n))
    ensures |Below(hi, lo, m, t)| == Count(hi, lo)
  {
    var cur := t - lo.step + hi.step;
    DividesTransitive(hi.step, lo.step, t);
    MultiplesCombine(t, lo.step, hi.step);
    ModShift(t - lo.step, 1, hi.step);
    FullSpansPresent(m, hist, fine, n, hi.step, cur, Count(hi, lo));
    FullIsAllKnown(m, cur, hi.step, Count(hi, lo));
  }

  /** With a factor in (0, 1], a level has a point wherever the finest span is full. */
  lemma {:induction false} FullSpansArePropagated<V>(policy: Policy<V>, archives: seq<Archive>, hist: map<int, V>, k: nat)
    requires 0.0 < policy.xff <= 1.0 && Levels(archives) && Dividing(archives) && k < |archives|
    ensures HasFullSpans(Level(policy, archives, hist, k), hist, archives[0].step, FinePoints(archives, k), archives[k].step)
  {
    if k == 0 {
      assert forall t :: Full(hist, t - archives[0].step + archives[0].step, archives[0].step, 1) ==> t in hist;
    } else {
      FullSpansArePropagated(policy, archives, hist, k - 1);
      FinePointsSpan(archives, k - 1);
      var hi, lo, n := archives[k - 1], archives[k], FinePoints(archives, k - 1);
      forall t | t % lo.step == 0 && Full(hist, t - lo.step + archives[0].step, archives[0].step, Count(hi, lo) * n)
        ensures t in Level(policy, archives, hist, k)
      {
        SpanCompletes(policy, hi, lo, hist, Level(policy, archives, hist, k - 1), archives[0].step, n, t);
      }
    }
  }

  // Sum conservation.

  /** Every multiple of `step` in the stretch was written. */
  ghost predicate ClosersWritten(hist: map<int, real>, step: int, from: int, to: int)
    requires 0 < step
  {
    forall u :: from < u <= to && u % step == 0 ==> u in hist
  }

  /** From `t` on, `c` successive points of `l` are the totals of their windows in `m`. */
  ghost predicate TotalsOf(l: map<int, real>, m: map<int, real>, h: int, step: int, n: nat, t: int, c: nat)
    decreases c
  {
    c == 0 || (t in l && l[t] == TotalIn(m, t - step + h, h, n) && TotalsOf(l, m, h, step, n, t + step, c - 1))
  }

  /** Windows tile: totals of successive windows add up to the total of the stretch. */
  lemma {:induction false} WindowsTile(l: map<int, real>, m: map<int, real>, h: int, step: int, n: nat, t: int, c: nat)
    requires step == n * h && TotalsOf(l, m, h, step, n, t, c)
    ensures TotalIn(l, t, step, c) == TotalIn(m, t - step + h, h, Times(c, n))
    decreases c
  {
    if c > 0 {
      WindowsTile(l, m, h, step, n, t + step, c - 1);
      TotalJoined(m, t - step + h, h, n, Times(c - 1, n));
      AfterSpan(t - step + h, h, n, step);
    }
  }

  /** Every written multiple of `step` carries in `l` the total of its window in `m`. */
  ghost predicate CarriesTotals(l: map<int, real>, hist: map<int, real>, m: map<int, real>, h: int, step: int, n: nat)
    requires 0 < step
  {
    forall t :: t in hist && t % step == 0 ==> t in l && l[t] == TotalIn(m, t - step + h, h, n)
  }

  lemma LiftCarriesTotals(xff: real, hi: Archive, lo: Archive, hist: map<int, real>, m: map<int, real>)
    requires xff <= 0.0 && Covers(hi, lo)
    ensures CarriesTotals(Lift(AggregatePolicy(Sum, xff), hi, lo, hist, m), hist, m, hi.step, lo.step, Count(hi, lo))
  {
    forall t | t in hist && t % lo.step == 0
      ensures Passes(|Below(hi, lo, m, t)|, Count(hi, lo), xff)
           && Total(Below(hi, lo, m, t)) == TotalIn(m, t - lo.step + hi.step, hi.step, Count(hi, lo))
    {
      PassesMeans(|Below(hi, lo, m, t)|, Count(hi, lo), xff);
      TotalOfKnown(m, t - lo.step + hi.step, hi.step, Count(hi, lo));
    }
  }

  lemma {:induction false} ClosersCarryTotals(l: map<int, real>, hist: map<int, real>, m: map<int, real>,
                                              h: int, step: int, n: nat, t: int, c: nat)
    requires 0 < step && t % step == 0 && CarriesTotals(l, hist, m, h, step, n)
    requires ClosersWritten(hist, step, t - step, t - step + Times(c, step))
    ensures TotalsOf(l, m, h, step, n, t, c)
    decreases c
  {
    if c > 0 {
      ModShift(t, 1, step);
      ClosersCarryTotals(l, hist, m, h, step, n, t + step, c - 1);
    }
  }

  /** Over whole windows whose closing timestamps were written, a level sums to what the finer one does. */
  lemma WindowsConserve(l: map<int, real>, hist: map<int, real>, m: map<int, real>, h: int, step: int, n: nat,
                        from: int, c: nat)
    requires 0 < step == n * h && from % step == 0 && CarriesTotals(l, hist, m, h, step, n)
    requires ClosersWritten(hist, step, from, from + c * step)
    ensures TotalIn(l, from + step, step, c) == TotalIn(m, from + h, h, c * n)
  {
    TimesIs(c, step);
    TimesIs(c, n);
    ModShift(from, 1, step);
    ClosersCarryTotals(l, hist, m, h, step, n, from + step, c);
    WindowsTile(l, m, h, step, n, from + step, c);
  }

  lemma ClosersOfCoarser(archives: seq<Archive>, hist: map<int, real>, k: nat, from: int, to: int)
    requires Levels(archives) && Dividing(archives) && 1 <= k < |archives|
    requires ClosersWritten(hist, archives[1].step, from, to)
    ensures ClosersWritten(hist, archives[k].step, from, to)
  {
    forall u | from < u <= to && u % archives[k].step == 0 ensures u in hist {
      CoarserMultiple(archives, u, k);
    }
  }

  /**
   * Sum conservation: with SUM and factor 0, over any stretch of whole windows
   * whose closing timestamps were written, every level has the finest total.
   */
  lemma {:induction false} SumIsConserved(xff: real, archives: seq<Archive>, hist: map<int, real>,
                                          k: nat, from: int, c: nat)
    requires xff <= 0.0 && Levels(archives) && Dividing(archives) && k < |archives|
    requires from % archives[k].step == 0
    requires 0 < k ==> ClosersWritten(hist, archives[1].step, from, from + c * archives[k].step)
    ensures TotalIn(Level(AggregatePolicy(Sum, xff), archives, hist, k), from + archives[k].step, archives[k].step, c)
         == TotalIn(hist, from + archives[0].step, archives[0].step, c * FinePoints(archives, k))
    decreases k
  {
    if k > 0 {
      var n, f := Count(archives[k - 1], archives[k]), FinePoints(archives, k - 1);
      DividesTransitive(archives[k - 1].step, archives[k].step, from);
      CountIs(archives[k - 1], archives[k]);
      Regroup(c, n, archives[k - 1].step);
      LevelConserves(xff, archives, hist, k, from, c);
      SumIsConserved(xff, archives, hist, k - 1, from, c * n);
      Regroup(c, n, f);
    }
  }

  /** From one level to the next. */
  lemma {:induction false} LevelConserves(xff: real, archives: seq<Archive>, hist: map<int, real>,
                                          k: nat, from: int, c: nat)
    requires xff <= 0.0 && Levels(archives) && Dividing(archives) && 0 < k < |archives|
    requires from % archives[k].step == 0
    requires ClosersWritten(hist, archives[1].step, from, from + c * archives[k].step)
    ensures TotalIn(Level(AggregatePolicy(Sum, xff), archives, hist, k), from + archives[k].step, archives[k].step, c)
         == TotalIn(Level(AggregatePolicy(Sum, xff), archives, hist, k - 1), from + archives[k - 1].step,
                    archives[k - 1].step, c * Count(archives[k - 1], archives[k]))
  {
    var hi, lo, m := archives[k - 1], archives[k], Level(AggregatePolicy(Sum, xff), archives, hist, k - 1);
    CountIs(hi, lo);
    ClosersOfCoarser(archives, hist, k, from, from + c * lo.step);
    LiftCarriesTotals(xff, hi, lo, hist, m);
    WindowsConserve(Lift(AggregatePolicy(Sum, xff), hi, lo, hist, m), hist, m, hi.step, lo.step, Count(hi, lo), from, c);
    LevelIsLift(AggregatePolicy(Sum, xff), archives, hist, k);
  }

  lemma Regroup(a: int, b: int, c: int)
    ensures (a * b) * c == a * (b * c)
  {
  }

  lemma {:induction false} CoarserMultiple(archives: seq<Archive>, u: int, k: nat)
    requires Levels(archives) && Dividing(archives) && 1 <= k < |archives| && u % archives[k].step == 0
    ensures u % archives[1].step == 0
  {
    if k > 1 {
      DividesTransitive(archives[k - 1].step, archives[k].step, u);
      CoarserMultiple(archives, u, k - 1);
    }
  }
}
