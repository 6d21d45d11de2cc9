/**
 * What a file of several archives stands for.  The reference is a pyramid of
 * maps built from the history of the finest archive alone, with no rings and no
 * slots in it; the rings of a file refine it over every run.
 */
module Pyramid {
  import opened Arith
  import opened Words
  import opened Ring
  import opened Window
  import opened Engine

  /** A chain whose windows tile: steps divide, and every ring is a whole number of windows. */
  predicate Chain(archives: seq<Archive>) {
    && Levels(archives)
    && (forall k :: 1 <= k < |archives| ==> Tiles(archives[k - 1], archives[k]))
  }

  /** Each archive's seconds per point divides the next one's, from the finest on. */
  predicate Dividing(archives: seq<Archive>)
    requires Levels(archives)
  {
    forall k :: 1 <= k < |archives| ==> archives[k].step % archives[k - 1].step == 0
  }

  // The reference pyramid.

  /** The values a level holds in the window that `t` closes on the next one. */
  function Below<V>(hi: Archive, lo: Archive, m: map<int, V>, t: int): (vs: seq<V>)
    requires Covers(hi, lo)
  {
    KnownIn(m, t - lo.step + hi.step, hi.step, Count(hi, lo))
  }

  /** The level above `m`: one point per closing timestamp that was itself written and passes the factor. */
  function Lift<V>(policy: Policy<V>, hi: Archive, lo: Archive, hist: map<int, V>, m: map<int, V>): map<int, V>
    requires Covers(hi, lo)
  {
    map t | t in hist && t % lo.step == 0 && Passes(|Below(hi, lo, m, t)|, Count(hi, lo), policy.xff)
      :: policy.aggregate(Below(hi, lo, m, t))
  }

  /** The finest level lifted `k` times. */
  function Lifted<V>(policy: Policy<V>, archives: seq<Archive>, hist: map<int, V>, k: nat): map<int, V>
    requires Levels(archives) && k < |archives|
  {
    if k == 0 then hist
    else Lift(policy, archives[k - 1], archives[k], hist, Lifted(policy, archives, hist, k - 1))
  }

  /** Level `k` of the pyramid over the history `hist` of the finest archive. */
  function Level<V>(policy: Policy<V>, archives: seq<Archive>, hist: map<int, V>, k: nat): map<int, V>
    requires Levels(archives) && k < |archives|
  {
    Lifted(policy, archives, hist, k)
  }

  // One more write changes the pyramid at its timestamp only.

  ghost predicate SameBut<V>(m: map<int, V>, m': map<int, V>, t: int) {
    && (forall u :: u != t ==> (u in m <==> u in m'))
    && (forall u :: u != t && u in m ==> m[u] == m'[u])
    && (t in m ==> t in m')
  }

  lemma {:induction false} KnownLocal<V>(m: map<int, V>, m': map<int, V>, t: int, cur: int, step: int, n: nat)
    requires SameBut(m, m', t)
    requires 0 < step && (n > 0 ==> At(cur, step, n - 1) < t)
    ensures KnownIn(m, cur, step, n) == KnownIn(m', cur, step, n)
    decreases n
  {
    if n > 0 {
      AtMonotone(cur, step, 0, n - 1);
      if n > 1 {
        AtNext(cur, step, n - 2);
      }
      KnownLocal(m, m', t, cur + step, step, n - 1);
    }
  }

  lemma {:induction false} KnownGrows<V>(m: map<int, V>, m': map<int, V>, t: int, cur: int, step: int, n: nat)
    requires SameBut(m, m', t)
    ensures |KnownIn(m, cur, step, n)| <= |KnownIn(m', cur, step, n)|
    decreases n
  {
    if n > 0 {
      KnownGrows(m, m', t, cur + step, step, n - 1);
    }
  }

  lemma PassesMonotone(a: nat, b: nat, n: int, xff: real)
    requires 0 < n && a <= b && Passes(a, n, xff)
    ensures Passes(b, n, xff)
  {
    DivMonotone(a, b, n);
  }

  ghost predicate Newest<V>(hist: map<int, V>, t: int) {
    forall u <- hist :: 0 < u <= t
  }

  /** The window an earlier timestamp closes ends before `t`. */
  lemma BelowLocal<V>(hi: Archive, lo: Archive, m: map<int, V>, m': map<int, V>, u: int, t: int)
    requires Covers(hi, lo) && lo.step % hi.step == 0 && 0 < u < t && u % lo.step == 0 && SameBut(m, m', t)
    ensures Below(hi, lo, m, u) == Below(hi, lo, m', u)
  {
    WindowSpan(hi, lo, u, 0);
    KnownLocal(m, m', t, u - lo.step + hi.step, hi.step, Count(hi, lo));
  }

  /** Lifting a level that changed at `t` only gives a level that changed at `t` only. */
  lemma LiftStep<V>(policy: Policy<V>, hi: Archive, lo: Archive, hist: map<int, V>, m: map<int, V>, m': map<int, V>,
                    t: int, v: V)
    requires Covers(hi, lo) && lo.step % hi.step == 0 && Newest(hist, t) && SameBut(m, m', t)
    ensures var l, l' := Lift(policy, hi, lo, hist, m), Lift(policy, hi, lo, hist[t := v], m');
            SameBut(l, l', t) && (t % lo.step != 0 ==> l' == l)
  {
    var l, l' := Lift(policy, hi, lo, hist, m), Lift(policy, hi, lo, hist[t := v], m');
    forall u | u != t && u in hist && u % lo.step == 0 ensures Below(hi, lo, m, u) == Below(hi, lo, m', u) {
      BelowLocal(hi, lo, m, m', u, t);
    }
    if t in l {
      KnownGrows(m, m', t, t - lo.step + hi.step, hi.step, Count(hi, lo));
      PassesMonotone(|Below(hi, lo, m, t)|, |Below(hi, lo, m', t)|, Count(hi, lo), policy.xff);
    }
  }

  /** A closing timestamp adds or replaces one point of the level above, or none. */
  lemma LiftUpdate<V>(policy: Policy<V>, hi: Archive, lo: Archive, hist: map<int, V>, m: map<int, V>, m': map<int, V>,
                      t: int, v: V)
    requires Covers(hi, lo) && lo.step % hi.step == 0 && Newest(hist, t) && SameBut(m, m', t) && t % lo.step == 0
    ensures var l, l' := Lift(policy, hi, lo, hist, m), Lift(policy, hi, lo, hist[t := v], m');
            l' == if Passes(|Below(hi, lo, m', t)|, Count(hi, lo), policy.xff)
                  then l[t := policy.aggregate(Below(hi, lo, m', t))] else l
  {
    LiftStep(policy, hi, lo, hist, m, m', t, v);
  }

  lemma {:induction false} LevelIsLift<V>(policy: Policy<V>, archives: seq<Archive>, hist: map<int, V>, k: nat)
    requires Levels(archives) && 0 < k < |archives|
    ensures Level(policy, archives, hist, k)
         == Lift(policy, archives[k - 1], archives[k], hist, Level(policy, archives, hist, k - 1))
  {
  }

  lemma {:induction false} LevelStep<V>(policy: Policy<V>, archives: seq<Archive>, hist: map<int, V>, t: int, v: V, k: nat)
    requires Levels(archives) && Dividing(archives) && k < |archives| && Newest(hist, t)
    ensures SameBut(Level(policy, archives, hist, k), Level(policy, archives, hist[t := v], k), t)
    ensures 0 < k && t % archives[k].step != 0 ==>
              Level(policy, archives, hist[t := v], k) == Level(policy, archives, hist, k)
  {
    if k > 0 {
      var hi, lo := archives[k - 1], archives[k];
      var m, m' := Level(policy, archives, hist, k - 1), Level(policy, archives, hist[t := v], k - 1);
      LevelStep(policy, archives, hist, t, v, k - 1);
      LiftStep(policy, hi, lo, hist, m, m', t, v);
      LevelIsLift(policy, archives, hist, k);
      LevelIsLift(policy, archives, hist[t := v], k);
    }
  }

  lemma {:induction false} LevelKeys<V>(policy: Policy<V>, archives: seq<Archive>, hist: map<int, V>, k: nat)
    requires Levels(archives) && k < |archives|
    ensures Level(policy, archives, hist, k).Keys <= hist.Keys
  {
  }

  // Rings against the pyramid.

  ghost predicate FileRefines<V(!new)>(policy: Policy<V>, archives: seq<Archive>, rings: seq<seq<Point<V>>>,
                                       hist: map<int, V>, now: int)
    requires Levels(archives) && Shaped(archives, rings)
  {
    forall k :: 0 <= k < |archives| ==> Refines(rings[k], archives[k], Level(policy, archives, hist, k), now)
  }

  /** Slot 0 of the first `n` rings is empty or opens a window of the next archive. */
  ghost predicate OpenedTo<V>(archives: seq<Archive>, rings: seq<seq<Point<V>>>, n: int)
    requires Levels(archives) && Shaped(archives, rings) && n < |archives|
  {
    forall k :: 1 <= k <= n ==>
      rings[k - 1][0].timestamp != 0 ==> OpensWindow(archives[k - 1], archives[k], rings[k - 1][0].timestamp)
  }

  /** So it does for every ring that is propagated from. */
  ghost predicate Opened<V>(archives: seq<Archive>, rings: seq<seq<Point<V>>>)
    requires Levels(archives) && Shaped(archives, rings)
  {
    OpenedTo(archives, rings, |archives| - 1)
  }

  ghost predicate AllInRange<V>(archives: seq<Archive>, rings: seq<seq<Point<V>>>, t: int)
    requires Levels(archives) && Shaped(archives, rings)
  {
    forall k :: 0 <= k < |archives| && rings[k][0].timestamp != 0 ==> InRange(archives[k], rings[k][0].timestamp, t)
  }

  /** On the rings, propagating to one archive brings it from one state of the pyramid to the next. */
  lemma RingsPropagate<V(!new)>(policy: Policy<V>, hi: Archive, lo: Archive, fine: seq<Point<V>>, coarse: seq<Point<V>>,
                                hist: map<int, V>, m: map<int, V>, m': map<int, V>, now: int, t: int, v: V)
    requires Tiles(hi, lo) && Newest(hist, t) && 0 < t < U32 && t % lo.step == 0 && now <= t
    requires |fine| == hi.points && |coarse| == lo.points
    requires fine[0].timestamp != 0 ==> OpensWindow(hi, lo, fine[0].timestamp) && InRange(hi, fine[0].timestamp, t)
    requires coarse[0].timestamp != 0 ==> InRange(lo, coarse[0].timestamp, t)
    ensures SameBut(m, m', t) && Refines(fine, hi, m', t) && Refines(coarse, lo, Lift(policy, hi, lo, hist, m), now) ==>
              Refines(Propagate(policy, hi, lo, fine, coarse, t), lo, Lift(policy, hi, lo, hist[t := v], m'), t)
  {
    var l := Lift(policy, hi, lo, hist, m);
    if SameBut(m, m', t) && Refines(fine, hi, m', t) && Refines(coarse, lo, l, now) {
      LiftUpdate(policy, hi, lo, hist, m, m', t, v);
      AlignedKnownIsExact(fine, hi, lo, m', t);
      OfferRefines(policy, hi, lo, coarse, l, now, t, Below(hi, lo, m', t));
    }
  }

  /** So it is with the file where the propagation is good. */
  lemma PropagateRefines<V(!new)>(policy: Policy<V>, hi: Archive, lo: Archive, fine: seq<Point<V>>, coarse: seq<Point<V>>,
                                  hist: map<int, V>, m: map<int, V>, m': map<int, V>, now: int, t: int, v: V)
    requires Tiles(hi, lo) && Newest(hist, t) && SameBut(m, m', t) && 0 < t < U32 && t % lo.step == 0 && now <= t
    requires Refines(fine, hi, m', t) && Refines(coarse, lo, Lift(policy, hi, lo, hist, m), now)
    requires fine[0].timestamp != 0 ==> OpensWindow(hi, lo, fine[0].timestamp) && InRange(hi, fine[0].timestamp, t)
    requires coarse[0].timestamp != 0 ==> InRange(lo, coarse[0].timestamp, t)
    requires Good(policy, hi, lo, fine, coarse, t)
    ensures Refines(Propagate(policy, hi, lo, fine, coarse, t), lo, Lift(policy, hi, lo, hist[t := v], m'), t)
  {
    RingsPropagate(policy, hi, lo, fine, coarse, hist, m, m', now, t, v);
  }

  /** The coarse ring follows its map when it is offered the values of a window. */
  lemma OfferRefines<V(!new)>(policy: Policy<V>, hi: Archive, lo: Archive, coarse: seq<Point<V>>, l: map<int, V>,
                              now: int, t: int, known: seq<V>)
    requires Covers(hi, lo) && Refines(coarse, lo, l, now) && 0 < t < U32 && t % lo.step == 0 && now <= t
    requires coarse[0].timestamp != 0 ==> InRange(lo, coarse[0].timestamp, t)
    ensures Passes(|known|, Count(hi, lo), policy.xff) ==>
              Refines(WritePoint(coarse, lo, Point(t, policy.aggregate(known))), lo, l[t := policy.aggregate(known)], t)
    ensures Refines(coarse, lo, l, t)
  {
    WriteNewest(coarse, lo, l, now, Point(t, policy.aggregate(known)));
    RefinesLater(coarse, lo, l, now, t);
  }

  /** An archive that the timestamp is no multiple of keeps standing for its level. */
  lemma NextLevelKeeps<V(!new)>(policy: Policy<V>, archives: seq<Archive>, coarse: seq<Point<V>>, hist: map<int, V>,
                                now: int, t: int, v: V, k: nat)
    requires Levels(archives) && Dividing(archives) && 0 < k < |archives| && Newest(hist, t) && now <= t
    requires Refines(coarse, archives[k], Level(policy, archives, hist, k), now) && t % archives[k].step != 0
    ensures Refines(coarse, archives[k], Level(policy, archives, hist[t := v], k), t)
  {
    LevelStep(policy, archives, hist, t, v, k);
    RefinesLater(coarse, archives[k], Level(policy, archives, hist, k), now, t);
  }

  /** Level by level, one call of `whisper_write_value` moves every ring with the pyramid. */
  lemma {:induction false} WriteRefinesLevel<V(!new)>(policy: Policy<V>, archives: seq<Archive>, rings: seq<seq<Point<V>>>,
                                                      hist: map<int, V>, now: int, p: Point<V>, k: nat)
    requires Chain(archives) && Shaped(archives, rings) && FileRefines(policy, archives, rings, hist, now)
    requires k < |archives| && 0 < p.timestamp < U32 && p.timestamp % archives[0].step == 0 && now <= p.timestamp
    requires Newest(hist, p.timestamp) && AllInRange(archives, rings, p.timestamp)
    requires AllInRange(archives, WriteAligned(policy, archives, rings, p), p.timestamp)
    requires OpenedTo(archives, WriteAligned(policy, archives, rings, p), k) && Accessible(policy, archives, rings, p)
    ensures Refines(WriteAligned(policy, archives, rings, p)[k], archives[k],
                    Level(policy, archives, hist[p.timestamp := p.value], k), p.timestamp)
  {
    WriteAt(policy, archives, rings, p, k);
    assert Refines(rings[k], archives[k], Level(policy, archives, hist, k), now);
    if k == 0 {
      WriteNewest(rings[0], archives[0], hist, now, p);
    } else {
      WriteRefinesLevel(policy, archives, rings, hist, now, p, k - 1);
      if p.timestamp % archives[k].step == 0 {
        LevelStep(policy, archives, hist, p.timestamp, p.value, k - 1);
        RingsPropagate(policy, archives[k - 1], archives[k], WriteAligned(policy, archives, rings, p)[k - 1], rings[k],
                       hist, Level(policy, archives, hist, k - 1),
                       Level(policy, archives, hist[p.timestamp := p.value], k - 1), now, p.timestamp, p.value);
      } else {
        NextLevelKeeps(policy, archives, rings[k], hist, now, p.timestamp, p.value, k);
      }
    }
  }
}
