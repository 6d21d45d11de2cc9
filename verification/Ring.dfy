/**
 * One archive of a whisper file as a ring of points.  `whisper_write_point`
 * picks the slot from the timestamp found in slot 0, and that timestamp is
 * itself replaced each time the ring laps.
 */
module Ring {
  import opened Arith
  import opened Words

  datatype Option<+T> = None | Some(value: T)

  /** A stored point; timestamp 0 marks a slot that was never written. */
  datatype Point<+V> = Point(timestamp: int, value: V)

  /** An archive record: byte offset, seconds per point and number of points. */
  datatype Archive = Archive(offset: int, step: int, points: int)

  const POINT_SIZE: int := 12

  predicate Sound(a: Archive) { 0 < a.step && 0 < a.points && 0 <= a.offset }

  /** The archive ends inside 32 bits, so that neither its size nor any offset in it wraps. */
  predicate In32Bits(a: Archive) { a.step < U32 && a.offset + Size(a) < U32 }

  /** Size of an archive in bytes. */
  function Size(a: Archive): int { a.points * POINT_SIZE }

  /** Byte distance of timestamp `t` from slot 0, with the 32-bit arithmetic of the source. */
  function ByteDistance(a: Archive, base: int, t: int): (r: int)
    requires Sound(a)
    ensures 0 <= r < Size(a)
  {
    Mul32(Sub32(t, base) / a.step, POINT_SIZE) % Size(a)
  }

  function Slot(a: Archive, base: int, t: int): (j: int)
    requires Sound(a)
    ensures 0 <= j < a.points
  {
    ByteDistance(a, base, t) / POINT_SIZE
  }

  /** The slot a write of timestamp `t` goes to: slot 0 while the ring is empty. */
  function WriteSlot<V>(ring: seq<Point<V>>, a: Archive, t: int): (j: int)
    requires Sound(a) && |ring| == a.points
    ensures 0 <= j < a.points
  {
    if ring[0].timestamp == 0 then 0 else Slot(a, ring[0].timestamp, t)
  }

  function WritePoint<V>(ring: seq<Point<V>>, a: Archive, p: Point<V>): (ring': seq<Point<V>>)
    requires Sound(a) && |ring| == a.points
    ensures |ring'| == a.points
  {
    ring[WriteSlot(ring, a, p.timestamp) := p]
  }

  /** The distance fits: no 32-bit operation of the slot computation wraps. */
  ghost predicate InRange(a: Archive, base: int, t: int)
    requires Sound(a)
  {
    0 <= base <= t < U32 && (t - base) / a.step * POINT_SIZE < U32
  }

  /** The slot a timestamp belongs to, in exact arithmetic and for any lap. */
  ghost function Home(a: Archive, base: int, t: int): (j: int)
    requires Sound(a)
    ensures 0 <= j < a.points
  {
    (t / a.step - base / a.step) % a.points
  }

  /**
   * The byte offset that the 32-bit product gives is a slot boundary exactly
   * when the product overflowed a multiple of three times.
   */
  lemma OnSlotBoundaryExactlyWhen(a: Archive, base: int, t: int)
    requires Sound(a)
    ensures ByteDistance(a, base, t) % POINT_SIZE == 0
       <==> (Sub32(t, base) / a.step * POINT_SIZE / U32) % 3 == 0
  {
    var d := Sub32(t, base) / a.step;
    var m := Mul32(d, POINT_SIZE);
    var w, z := d * POINT_SIZE / U32, m / Size(a);
    assert z * Size(a) == (z * a.points) * POINT_SIZE;
    assert m % Size(a) == m - z * Size(a);
    OverflowResidue(d, w, z * a.points);
  }

  lemma OverflowResidue(d: int, w: int, z: int)
    ensures (d * POINT_SIZE - w * U32 - z * POINT_SIZE) % POINT_SIZE == 0 <==> w % 3 == 0
  {
  }

  /** At one second per point, a distance of 357913942 points leaves the slot boundaries by eight bytes. */
  lemma OverflowLeavesSlots()
    ensures ByteDistance(Archive(28, 1, 1440), 1, 357913943) == 8
  {
    assert 357913942 * POINT_SIZE == U32 + 8;
  }

  /** Archives of at least twelve seconds per point never overflow the product. */
  lemma CoarseStepsNeverWrap(a: Archive, base: int, t: int)
    requires Sound(a) && POINT_SIZE <= a.step
    ensures Sub32(t, base) / a.step * POINT_SIZE < U32
    ensures ByteDistance(a, base, t) % POINT_SIZE == 0
  {
    var x: int := Sub32(t, base);
    var d := x / a.step;
    DivAntitone(x, POINT_SIZE, a.step);
    TwelfthFits(x, d);
    OnSlotBoundaryExactlyWhen(a, base, t);
  }

  lemma TwelfthFits(x: int, d: int)
    requires 0 <= x < U32 && d <= x / POINT_SIZE
    ensures d * POINT_SIZE < U32 && (0 <= d ==> d * POINT_SIZE / U32 == 0)
  {
  }

  /** The least number of points whose byte distance overflows 32 bits. */
  const FIRST_OVERFLOW: int := 357913942

  /** Below twelve seconds per point that many points are a 32-bit distance, and off the slots. */
  lemma FirstOverflowOffSlot(a: Archive, base: int, t: int)
    requires Sound(a) && a.step < POINT_SIZE && 0 <= base && t == base + FIRST_OVERFLOW * a.step < U32
    ensures ByteDistance(a, base, t) % POINT_SIZE != 0
  {
    MultipleHasNoRemainder(FIRST_OVERFLOW, a.step);
    Exact32(t - base);
    OnSlotBoundaryExactlyWhen(a, base, t);
  }

  /** Every distance of an archive is a slot boundary exactly from twelve seconds per point on. */
  lemma AlwaysOnSlotExactlyWhen(a: Archive)
    requires Sound(a)
    ensures (forall base: Word32, t: Word32 :: ByteDistance(a, base, t) % POINT_SIZE == 0) <==> POINT_SIZE <= a.step
  {
    if POINT_SIZE <= a.step {
      forall base: Word32, t: Word32 ensures ByteDistance(a, base, t) % POINT_SIZE == 0 {
        CoarseStepsNeverWrap(a, base, t);
      }
    } else {
      var base: Word32, t: Word32 := 0, FIRST_OVERFLOW * a.step;
      FirstOverflowOffSlot(a, base, t);
      assert ByteDistance(a, base, t) % POINT_SIZE != 0;
    }
  }

  /** The byte offset computed for a write of `t` is a slot boundary. */
  predicate OnSlot<V>(ring: seq<Point<V>>, a: Archive, t: int)
    requires Sound(a) && |ring| == a.points
  {
    ring[0].timestamp == 0 || ByteDistance(a, ring[0].timestamp, t) % POINT_SIZE == 0
  }

  /**
   * What the 32-bit arithmetic adds to the byte distance of two aligned
   * timestamps: a whole turn if the subtraction wraps, less the overflows of the
   * product.
   */
  function Displacement(a: Archive, base: int, t: int): int
    requires Sound(a)
  {
    (if t < base then U32 / a.step * POINT_SIZE else 0) - Sub32(t, base) / a.step * POINT_SIZE / U32 * U32
  }

  /** The distance in points that the source computes, before or after slot 0's timestamp. */
  lemma PointDistance(a: Archive, base: int, t: int)
    requires Sound(a) && 0 <= base < U32 && 0 <= t < U32 && base % a.step == 0 && t % a.step == 0
    ensures Sub32(t, base) / a.step == t / a.step - base / a.step + if t < base then U32 / a.step else 0
  {
    var x := t / a.step - base / a.step;
    assert t - base == x * a.step;
    if t < base {
      var q, r := U32 / a.step, U32 % a.step;
      assert U32 == q * a.step + r;
      assert t - base + U32 == (q + x) * a.step + r;
      Exact32(t - base + U32);
      QuotientUnique(t - base, U32, -1, t - base + U32);
      QuotientUnique(t - base + U32, a.step, q + x, r);
    } else {
      Exact32(t - base);
      MultipleHasNoRemainder(x, a.step);
    }
  }

  /** The byte offset is that of the timestamp's home exactly when the displacement is a whole number of laps. */
  lemma AtHomeExactlyWhen(a: Archive, base: int, t: int)
    requires Sound(a) && 0 <= base < U32 && 0 <= t < U32 && base % a.step == 0 && t % a.step == 0
    ensures ByteDistance(a, base, t) == POINT_SIZE * Home(a, base, t) <==> Displacement(a, base, t) % Size(a) == 0
  {
    PointDistance(a, base, t);
    var x, d := t / a.step - base / a.step, Sub32(t, base) / a.step;
    ScaledRemainder(x, a.points, POINT_SIZE);
    assert Mul32(d, POINT_SIZE) == d * POINT_SIZE - d * POINT_SIZE / U32 * U32;
    ModDifference(Mul32(d, POINT_SIZE), x * POINT_SIZE, Size(a));
    assert Mul32(d, POINT_SIZE) - x * POINT_SIZE == Displacement(a, base, t);
  }

  lemma ScaledMultiple(q: int, p: int)
    requires 0 < p
    ensures (q * POINT_SIZE) % (p * POINT_SIZE) == 0 <==> q % p == 0
  {
    ScaledRemainder(q, p, POINT_SIZE);
  }

  /** From twelve seconds per point on only the subtraction wraps. */
  lemma DisplacementBehind(a: Archive, base: int, t: int)
    requires Sound(a) && POINT_SIZE <= a.step && t < base
    ensures Displacement(a, base, t) == U32 / a.step * POINT_SIZE
  {
    CoarseStepsNeverWrap(a, base, t);
    var x := Sub32(t, base) / a.step * POINT_SIZE;
    DivMonotone(0, Sub32(t, base), a.step);
    QuotientUnique(x, U32, 0, x);
  }

  /**
   * From twelve seconds per point on, a timestamp before slot 0's is found at
   * home exactly when the points of 2^32 seconds are a whole number of laps.
   */
  lemma BehindBaseExactlyWhen(a: Archive, base: int, t: int)
    requires Sound(a) && POINT_SIZE <= a.step && 0 <= t < base < U32 && base % a.step == 0 && t % a.step == 0
    ensures ByteDistance(a, base, t) == POINT_SIZE * Home(a, base, t) <==> (U32 / a.step) % a.points == 0
  {
    AtHomeExactlyWhen(a, base, t);
    DisplacementBehind(a, base, t);
    ScaledMultiple(U32 / a.step, a.points);
  }

  /** At one second per point and a day of points, three overflows lead to slot 0 instead of slot 49024. */
  lemma OverflowMisplaces()
    ensures var a := Archive(28, 1, 86400);
            ByteDistance(a, 1, 1073741825) == 0 && Home(a, 1, 1073741825) == 49024
  {
    assert 1073741824 * POINT_SIZE == 3 * U32;
  }

  /** In range, the source's slot is the timestamp's home. */
  lemma SlotIsHome(a: Archive, base: int, t: int)
    requires Sound(a) && InRange(a, base, t)
    requires base % a.step == 0 && t % a.step == 0
    ensures Slot(a, base, t) == Home(a, base, t)
    ensures ByteDistance(a, base, t) == POINT_SIZE * Home(a, base, t)
  {
    MultiplesCombine(t, base, a.step);
    DivMonotone(base, t, a.step);
    var d := t / a.step - base / a.step;
    Exact32(t - base);
    Exact32(d * POINT_SIZE);
    ScaledRemainder(d, a.points, POINT_SIZE);
    assert ByteDistance(a, base, t) == (d * POINT_SIZE) % Size(a);
  }

  /** When slot 0 is rewritten its new timestamp gives every timestamp the same home. */
  lemma HomeRebase(a: Archive, base: int, base': int, t: int)
    requires Sound(a) && Home(a, base, base') == 0
    ensures Home(a, base', t) == Home(a, base, t)
  {
    var x, b, b' := t / a.step, base / a.step, base' / a.step;
    ModDifference(x - b, x - b', a.points);
  }

  /** Two timestamps of one slot differ by whole laps. */
  lemma SameHome(a: Archive, base: int, t: int, u: int)
    requires Sound(a) && t % a.step == 0 && u % a.step == 0
    requires Home(a, base, t) == Home(a, base, u)
    requires u <= t < u + a.points * a.step
    ensures t == u
  {
    var x, y := t / a.step, u / a.step;
    assert t == x * a.step && u == y * a.step;
    assert (y + a.points) * a.step == u + a.points * a.step;
    MulCancelLess(x, y + a.points, a.step);
    DivMonotone(u, t, a.step);
    ModApart(x - base / a.step, y - base / a.step, a.points);
  }

  /**
   * The ring stands for the map `m` of everything written so far, `now` being
   * the newest timestamp.  A slot holds nothing but written points, each in its
   * home; and every written timestamp of the last `points * step` seconds is
   * in its home slot with the value last written for it.
   */
  ghost predicate Refines<V(!new)>(ring: seq<Point<V>>, a: Archive, m: map<int, V>, now: int)
  {
    && Sound(a) && |ring| == a.points
    && (forall t <- m :: 0 < t <= now && t % a.step == 0)
    && (ring[0].timestamp == 0 ==> m == map[])
    && (forall j :: 0 <= j < |ring| && ring[j].timestamp != 0 ==> Kept(ring, a, m, j))
    && (forall t <- m :: now < t + a.points * a.step ==> Stored(ring, a, m, t))
  }

  ghost predicate Kept<V(!new)>(ring: seq<Point<V>>, a: Archive, m: map<int, V>, j: int)
    requires Sound(a) && |ring| == a.points && 0 <= j < |ring|
  {
    && ring[j].timestamp in m
    && ring[j].value == m[ring[j].timestamp]
    && Home(a, ring[0].timestamp, ring[j].timestamp) == j
  }

  ghost predicate Stored<V(!new)>(ring: seq<Point<V>>, a: Archive, m: map<int, V>, t: int)
    requires Sound(a) && |ring| == a.points && t in m
  {
    ring[Home(a, ring[0].timestamp, t)] == Point(t, m[t])
  }

  /**
   * What a write may be: aligned, no earlier than slot 0, and no further
   * behind the newest point than the archive reaches.
   */
  ghost predicate Admissible<V>(ring: seq<Point<V>>, a: Archive, now: int, t: int)
    requires Sound(a) && |ring| == a.points
  {
    && 0 < t < U32 && t % a.step == 0
    && now < t + a.points * a.step
    && (ring[0].timestamp != 0 ==> InRange(a, ring[0].timestamp, t))
  }

  function Max(x: int, y: int): int { if x < y then y else x }

  /** One admissible write is one map update, whether or not it laps the ring. */
  lemma WriteRefines<V(!new)>(ring: seq<Point<V>>, a: Archive, m: map<int, V>, now: int, p: Point<V>)
    requires Refines(ring, a, m, now) && Admissible(ring, a, now, p.timestamp)
    ensures Refines(WritePoint(ring, a, p), a, m[p.timestamp := p.value], Max(now, p.timestamp))
  {
    var t := p.timestamp;
    var ring', m', now' := WritePoint(ring, a, p), m[t := p.value], Max(now, t);
    var base, base' := ring[0].timestamp, ring'[0].timestamp;
    if base == 0 {
      forall j | 0 <= j < |ring'| && ring'[j].timestamp != 0 ensures Kept(ring', a, m', j) {
        assert ring[j].timestamp != 0 ==> Kept(ring, a, m, j);
      }
    } else {
      assert Kept(ring, a, m, 0);
      SlotIsHome(a, base, t);
      var k := Home(a, base, t);
      assert ring' == ring[k := p];
      forall u ensures Home(a, base', u) == Home(a, base, u) {
        HomeRebase(a, base, base', u);
      }
      forall j | 0 <= j < |ring'| && ring'[j].timestamp != 0 ensures Kept(ring', a, m', j) {
        if j != k {
          assert Kept(ring, a, m, j);
        }
      }
      forall u <- m' | now' < u + a.points * a.step ensures Stored(ring', a, m', u) {
        if u != t {
          assert Stored(ring, a, m, u);
          if Home(a, base, u) == k {
            if u <= t {
              SameHome(a, base, t, u);
            } else {
              SameHome(a, base, u, t);
            }
          }
        }
      }
    }
  }

  /** A write of the newest timestamp is always admissible. */
  lemma WriteNewest<V(!new)>(ring: seq<Point<V>>, a: Archive, m: map<int, V>, now: int, p: Point<V>)
    requires Refines(ring, a, m, now) && now <= p.timestamp && 0 < p.timestamp < U32 && p.timestamp % a.step == 0
    requires ring[0].timestamp != 0 ==> InRange(a, ring[0].timestamp, p.timestamp)
    ensures Refines(WritePoint(ring, a, p), a, m[p.timestamp := p.value], p.timestamp)
  {
    MulAtLeast(a.points, a.step);
    WriteRefines(ring, a, m, now, p);
  }

  /** A ring keeps standing for its map while other archives move on. */
  lemma RefinesLater<V(!new)>(ring: seq<Point<V>>, a: Archive, m: map<int, V>, now: int, later: int)
    requires Refines(ring, a, m, now) && now <= later
    ensures Refines(ring, a, m, later)
  {
  }
}
