/** Whole runs of writes to one archive: the ring is a map with a retention limit. */
module RingRuns {
  import opened Arith
  import opened Words
  import opened Ring

  /** The ring after the writes `ps`, in order. */
  function WriteAll<V>(ring: seq<Point<V>>, a: Archive, ps: seq<Point<V>>): (r: seq<Point<V>>)
    requires Sound(a) && |ring| == a.points
    ensures |r| == a.points
  {
    if ps == [] then ring else WritePoint(WriteAll(ring, a, ps[..|ps| - 1]), a, ps[|ps| - 1])
  }

  /** The value last written for each timestamp. */
  function Written<V>(ps: seq<Point<V>>): map<int, V> {
    if ps == [] then map[]
    else Written(ps[..|ps| - 1])[ps[|ps| - 1].timestamp := ps[|ps| - 1].value]
  }

  function MaxTimestamp<V>(ps: seq<Point<V>>): int {
    if ps == [] then 0 else Max(MaxTimestamp(ps[..|ps| - 1]), ps[|ps| - 1].timestamp)
  }

  ghost predicate BlankRing<V>(ring: seq<Point<V>>) {
    forall j :: 0 <= j < |ring| ==> ring[j].timestamp == 0
  }

  /** Every write of the run is admissible where it happens. */
  ghost predicate AdmissibleRun<V>(ring: seq<Point<V>>, a: Archive, ps: seq<Point<V>>)
    requires Sound(a) && |ring| == a.points
  {
    ps == [] ||
    var before := ps[..|ps| - 1];
    AdmissibleRun(ring, a, before) &&
    Admissible(WriteAll(ring, a, before), a, MaxTimestamp(before), ps[|ps| - 1].timestamp)
  }

  /** The plain case: nonzero aligned timestamps that never go back. */
  ghost predicate NondecreasingRun<V>(a: Archive, ps: seq<Point<V>>)
    requires Sound(a)
  {
    && (forall i :: 0 <= i < |ps| ==> 0 < ps[i].timestamp && ps[i].timestamp % a.step == 0)
    && (forall i, j :: 0 <= i < j < |ps| ==> ps[i].timestamp <= ps[j].timestamp)
    && (forall i :: 0 <= i < |ps| ==> InRange(a, ps[0].timestamp, ps[i].timestamp))
  }

  /** From twelve seconds per point on, that is every run of positive 32-bit multiples of the step that never go back. */
  lemma CoarseNondecreasing<V>(a: Archive, ps: seq<Point<V>>)
    requires Sound(a) && POINT_SIZE <= a.step
    requires forall i :: 0 <= i < |ps| ==> 0 < ps[i].timestamp < U32 && ps[i].timestamp % a.step == 0
    requires forall i, j :: 0 <= i < j < |ps| ==> ps[i].timestamp <= ps[j].timestamp
    ensures NondecreasingRun(a, ps)
  {
    forall i | 0 <= i < |ps| ensures InRange(a, ps[0].timestamp, ps[i].timestamp) {
      DivAntitone(ps[i].timestamp - ps[0].timestamp, POINT_SIZE, a.step);
    }
  }

  lemma {:induction false} RunRefines<V(!new)>(ring: seq<Point<V>>, a: Archive, ps: seq<Point<V>>)
    requires Sound(a) && |ring| == a.points && BlankRing(ring) && AdmissibleRun(ring, a, ps)
    ensures Refines(WriteAll(ring, a, ps), a, Written(ps), MaxTimestamp(ps))
  {
    if ps != [] {
      var before, p := ps[..|ps| - 1], ps[|ps| - 1];
      RunRefines(ring, a, before);
      WriteRefines(WriteAll(ring, a, before), a, Written(before), MaxTimestamp(before), p);
    }
  }

  lemma {:induction false} NondecreasingIsAdmissible<V(!new)>(ring: seq<Point<V>>, a: Archive, ps: seq<Point<V>>)
    requires Sound(a) && |ring| == a.points && BlankRing(ring) && NondecreasingRun(a, ps)
    ensures AdmissibleRun(ring, a, ps)
    ensures ps != [] ==> MaxTimestamp(ps) == ps[|ps| - 1].timestamp
    ensures forall t <- Written(ps) :: ps != [] && ps[0].timestamp <= t
  {
    if ps != [] {
      var before, p := ps[..|ps| - 1], ps[|ps| - 1];
      assert forall i :: 0 <= i < |before| ==> before[i] == ps[i];
      NondecreasingIsAdmissible(ring, a, before);
      RunRefines(ring, a, before);
      NewestIsAdmissible(WriteAll(ring, a, before), a, Written(before), MaxTimestamp(before), ps[0].timestamp, p.timestamp);
    }
  }

  /** A timestamp no earlier than any written one is admissible if it is in range of the first. */
  lemma NewestIsAdmissible<V(!new)>(ring: seq<Point<V>>, a: Archive, m: map<int, V>, now: int, first: int, t: int)
    requires Refines(ring, a, m, now) && now <= t && 0 < t && t % a.step == 0 && InRange(a, first, t)
    requires forall u <- m :: first <= u
    ensures Admissible(ring, a, now, t)
  {
    MulAtLeast(a.points, a.step);
    if ring[0].timestamp != 0 {
      assert Kept(ring, a, m, 0);
      DivMonotone(t - ring[0].timestamp, t - first, a.step);
    }
  }

  ghost predicate HeldOnlyAt<V>(ring: seq<Point<V>>, t: int, j: int) {
    0 <= j < |ring| && ring[j].timestamp == t
    && forall i :: 0 <= i < |ring| && ring[i].timestamp == t ==> i == j
  }

  /**
   * Within the archive's reach a timestamp is in exactly one slot, with the
   * value last written, if it was written, and in none otherwise.
   */
  lemma {:induction false} RingRefinesMap<V(!new)>(ring: seq<Point<V>>, a: Archive, ps: seq<Point<V>>, t: int)
    requires Sound(a) && |ring| == a.points && BlankRing(ring) && AdmissibleRun(ring, a, ps)
    requires 0 < t && MaxTimestamp(ps) < t + a.points * a.step
    ensures t in Written(ps) ==>
              exists j :: HeldOnlyAt(WriteAll(ring, a, ps), t, j) && WriteAll(ring, a, ps)[j].value == Written(ps)[t]
    ensures t !in Written(ps) ==>
              forall j :: 0 <= j < a.points ==> WriteAll(ring, a, ps)[j].timestamp != t
  {
    RunRefines(ring, a, ps);
    var now, m := WriteAll(ring, a, ps), Written(ps);
    forall j | 0 <= j < a.points && now[j].timestamp == t ensures Kept(now, a, m, j) {
    }
    if t in m {
      assert Stored(now, a, m, t);
      assert HeldOnlyAt(now, t, Home(a, now[0].timestamp, t));
    }
  }
}
