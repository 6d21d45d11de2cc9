/**
 * The read half of `whisper_write_propagate`: which slots of the finer ring
 * reach the read buffer, and which of their values reach the aggregator.
 */
module Window {
  import opened Arith
  import opened Words
  import opened Ring

  /** The finer archive has at least one and at most all of its points per coarse point. */
  predicate Covers(hi: Archive, lo: Archive) {
    Sound(hi) && Sound(lo) && hi.step <= lo.step && lo.step / hi.step <= hi.points
  }

  /** Fine points per coarse point. */
  function Count(hi: Archive, lo: Archive): (n: int)
    requires Covers(hi, lo)
    ensures 0 < n <= hi.points
  {
    QuotientAtLeast(lo.step, hi.step, 1);
    lo.step / hi.step
  }

  lemma CountIs(hi: Archive, lo: Archive)
    requires Covers(hi, lo) && lo.step % hi.step == 0
    ensures lo.step == Count(hi, lo) * hi.step
  {
  }

  /** Timestamp of the first fine point of the window that `t` closes. */
  function Start(hi: Archive, lo: Archive, t: int): Word32 {
    Add32(Sub32(t, lo.step), hi.step)
  }

  /** First byte read and the byte where reading should stop, relative to the file. */
  function ReadFrom(hi: Archive, j: int): int { hi.offset + j * POINT_SIZE }

  function ReadTo(hi: Archive, j: int, n: int): int
    requires Sound(hi)
  {
    (ReadFrom(hi, j) + n * POINT_SIZE) % Size(hi)
  }

  /** Points delivered by the first read. */
  function FirstRead(hi: Archive, j: int, n: int): int
    requires Sound(hi)
  {
    if ReadFrom(hi, j) < ReadTo(hi, j, n) then (ReadTo(hi, j, n) - ReadFrom(hi, j)) / POINT_SIZE
    else hi.points - j
  }

  /**
   * Points delivered by the second read, which starts over at slot 0.  Its
   * length is the archive's offset less the stopping byte; a negative length
   * makes the read fail and deliver nothing.
   */
  function SecondRead(hi: Archive, j: int, n: int): int
    requires Sound(hi)
  {
    if ReadFrom(hi, j) < ReadTo(hi, j, n) || hi.offset < ReadTo(hi, j, n) then 0
    else (hi.offset - ReadTo(hi, j, n)) / POINT_SIZE
  }

  /** Both reads stay inside the buffer, which is as large as the archive. */
  predicate Fits(hi: Archive, j: int, n: int)
    requires Sound(hi)
  {
    FirstRead(hi, j, n) + SecondRead(hi, j, n) <= hi.points
  }

  /** The slot that cell `i` of the read buffer was filled from, if any. */
  function Source(hi: Archive, j: int, n: int, i: int): Option<int>
    requires Sound(hi)
  {
    if i < FirstRead(hi, j, n) then Some(j + i)
    else if i - FirstRead(hi, j, n) < SecondRead(hi, j, n) then Some(i - FirstRead(hi, j, n))
    else None
  }

  lemma ReadToMultiple(hi: Archive, j: int, n: int) returns (q: int)
    requires Sound(hi) && 0 <= j && 0 <= n
    ensures 0 <= q && ReadTo(hi, j, n) == hi.offset + (j + n - q * hi.points) * POINT_SIZE
    ensures q == (hi.offset + (j + n) * POINT_SIZE) / Size(hi)
    ensures 0 <= ReadTo(hi, j, n) < Size(hi)
  {
    var x := ReadFrom(hi, j) + n * POINT_SIZE;
    q := x / Size(hi);
    assert q * Size(hi) == (q * hi.points) * POINT_SIZE;
    DivMonotone(0, x, Size(hi));
  }

  /**
   * How a window of `n` points from slot `j` is read.  One that ends inside the
   * ring is read whole; of one that runs past the ring's end the first read
   * delivers the points up to the end.
   */
  lemma ReadSplit(hi: Archive, j: int, n: int)
    requires Sound(hi) && 0 <= j < hi.points && 0 < n <= hi.points
    ensures j + n <= hi.points ==> n <= FirstRead(hi, j, n) <= hi.points - j
    ensures j + n > hi.points ==> FirstRead(hi, j, n) == hi.points - j
    ensures 0 <= SecondRead(hi, j, n)
  {
    var q := ReadToMultiple(hi, j, n);
    var z := q * hi.points;
    assert ReadTo(hi, j, n) - hi.offset == (j + n - z) * POINT_SIZE;
    if q >= 1 {
      MulMonotone(1, q, hi.points);
      assert hi.points <= z;
    } else {
      assert z == 0;
    }
  }

  /** The two reads deliver whole points, all of them from inside the archive while they fit the buffer. */
  lemma ReadLengths(hi: Archive, j: int, n: int)
    requires Sound(hi) && 0 <= j < hi.points && 0 < n <= hi.points
    ensures var s, e := ReadFrom(hi, j), ReadTo(hi, j, n);
            var f, g := FirstRead(hi, j, n), SecondRead(hi, j, n);
            && 0 <= f <= hi.points - j && 0 <= g
            && f * POINT_SIZE == (if s < e then e - s else hi.offset + Size(hi) - s)
            && g * POINT_SIZE == (if s < e || hi.offset < e then 0 else hi.offset - e)
  {
    var q := ReadToMultiple(hi, j, n);
    var z := q * hi.points;
    assert ReadTo(hi, j, n) - hi.offset == (j + n - z) * POINT_SIZE;
    ReadSplit(hi, j, n);
  }

  /** The slot `i` places after slot `j` on the ring. */
  function After(hi: Archive, j: int, i: int): int
    requires Sound(hi)
  {
    (j + i) % hi.points
  }

  lemma AfterIs(hi: Archive, j: int, i: int)
    requires Sound(hi) && 0 <= j < hi.points && 0 <= i < hi.points
    ensures After(hi, j, i) == if j + i < hi.points then j + i else j + i - hi.points
  {
    if j + i < hi.points {
      QuotientUnique(j + i, hi.points, 0, j + i);
    } else {
      QuotientUnique(j + i, hi.points, 1, j + i - hi.points);
    }
  }

  /** How many times the archive's size is taken off the offset where reading should stop. */
  function Turns(hi: Archive, j: int, n: int): int
    requires Sound(hi)
  {
    (hi.offset + (j + n) * POINT_SIZE) / Size(hi)
  }

  /**
   * The reads stay inside the buffer exactly when the second one, of
   * `Turns * points - j - n` points, leaves room for the first.
   */
  lemma FitsExactlyWhen(hi: Archive, j: int, n: int)
    requires Sound(hi) && 0 <= j < hi.points && 0 < n <= hi.points
    ensures Fits(hi, j, n) <==> Turns(hi, j, n) * hi.points <= 2 * j + n
  {
    var q := ReadToMultiple(hi, j, n);
    var z := q * hi.points;
    assert hi.offset - ReadTo(hi, j, n) == (z - j - n) * POINT_SIZE;
    if q >= 1 {
      MulMonotone(1, q, hi.points);
    } else {
      assert z == 0;
    }
  }

  /** A straddling window's second read reaches its last point exactly if it is as long as what lies past the end. */
  lemma SecondReadReaches(hi: Archive, j: int, n: int)
    requires Sound(hi) && 0 <= j < hi.points && 0 < n <= hi.points < j + n
    ensures j + n - hi.points <= SecondRead(hi, j, n) <==> 2 * (j + n) <= (Turns(hi, j, n) + 1) * hi.points
  {
    var q := ReadToMultiple(hi, j, n);
    var z := q * hi.points;
    assert hi.offset - ReadTo(hi, j, n) == (z - j - n) * POINT_SIZE;
    assert (q + 1) * hi.points == z + hi.points;
    ReadSplit(hi, j, n);
  }

  /** The second read is not too long and, for a window that runs past the ring's end, not too short. */
  predicate SecondReadRight(hi: Archive, j: int, n: int)
    requires Sound(hi)
  {
    && Turns(hi, j, n) * hi.points <= 2 * j + n
    && (j + n <= hi.points || 2 * (j + n) <= (Turns(hi, j, n) + 1) * hi.points)
  }

  /** From slot `j` on, the reads stay inside the buffer and cell by cell follow the ring exactly when the second is right. */
  lemma ReadFromExactlyWhen(hi: Archive, j: int, n: int)
    requires Sound(hi) && 0 <= j < hi.points && 0 < n <= hi.points
    ensures (Fits(hi, j, n) && forall i :: 0 <= i < n ==> Source(hi, j, n, i) == Some(After(hi, j, i)))
       <==> SecondReadRight(hi, j, n)
  {
    FitsExactlyWhen(hi, j, n);
    ReadSplit(hi, j, n);
    forall i | 0 <= i < n
      ensures After(hi, j, i) == if j + i < hi.points then j + i else j + i - hi.points
    {
      AfterIs(hi, j, i);
    }
    if j + n > hi.points {
      SecondReadReaches(hi, j, n);
      assert Source(hi, j, n, n - 1).Some? <==> j + n - hi.points <= SecondRead(hi, j, n);
    }
  }

  /** In the finest archive of a day of minutes, a window of three from the last slot loses its last two points. */
  lemma StraddleIsMissed()
    ensures var hi := Archive(40, 60, 1440);
            Source(hi, 1439, 3, 0) == Some(1439) && Source(hi, 1439, 3, 1) == None && Source(hi, 1439, 3, 2) == None
  {
    assert ReadTo(Archive(40, 60, 1440), 1439, 3) == 64;
  }

  /**
   * The bytes before the archive would fill at most half of what a window
   * leaves of it; a window of the whole ring counts for nothing.
   */
  predicate Ample(hi: Archive, n: int)
    requires Sound(hi)
  {
    2 * (hi.offset / POINT_SIZE) + n % hi.points <= hi.points
  }

  /** Windows of `n` points stay inside the buffer, from whatever slot they start, exactly in an ample archive. */
  lemma AlwaysFitsExactlyWhen(hi: Archive, n: int)
    requires Sound(hi) && 0 < n <= hi.points
    ensures (forall j :: 0 <= j < hi.points ==> Fits(hi, j, n)) <==> Ample(hi, n)
  {
    if Ample(hi, n) {
      forall j | 0 <= j < hi.points ensures Fits(hi, j, n) {
        AmpleFits(hi, j, n);
      }
    } else {
      var j := Overfilled(hi, n);
    }
  }

  /** Whole points before and in the archive decide the turns. */
  lemma TurnsInPoints(hi: Archive, j: int, n: int)
    requires Sound(hi)
    ensures Turns(hi, j, n) == (hi.offset / POINT_SIZE + j + n) / hi.points
  {
    var m := hi.offset / POINT_SIZE + j + n;
    var q, r := m / hi.points, m % hi.points;
    assert m == q * hi.points + r;
    assert m * POINT_SIZE == q * Size(hi) + r * POINT_SIZE;
    QuotientUnique(hi.offset + (j + n) * POINT_SIZE, Size(hi), q, r * POINT_SIZE + hi.offset % POINT_SIZE);
  }

  lemma AmpleFits(hi: Archive, j: int, n: int)
    requires Sound(hi) && 0 <= j < hi.points && 0 < n <= hi.points && Ample(hi, n)
    ensures Fits(hi, j, n)
  {
    var o, p := hi.offset / POINT_SIZE, hi.points;
    FitsExactlyWhen(hi, j, n);
    TurnsInPoints(hi, j, n);
    RingRemainder(n, p);
    var x := o + j + n;
    if x < p {
      QuotientUnique(x, p, 0, x);
    } else if x < 2 * p {
      QuotientUnique(x, p, 1, x - p);
    } else {
      QuotientUnique(x, p, 2, x - 2 * p);
    }
  }

  lemma RingRemainder(n: int, p: int)
    requires 0 < n <= p
    ensures n % p == if n == p then 0 else n
  {
    if n == p {
      QuotientUnique(n, p, 1, 0);
    } else {
      QuotientUnique(n, p, 0, n);
    }
  }

  /** Where an archive that is not ample overfills the buffer. */
  lemma Overfilled(hi: Archive, n: int) returns (j: int)
    requires Sound(hi) && 0 < n <= hi.points && !Ample(hi, n)
    ensures 0 <= j < hi.points && !Fits(hi, j, n) && (n < hi.points ==> j + n <= hi.points)
  {
    var o, p := hi.offset / POINT_SIZE, hi.points;
    RingRemainder(n, p);
    var m := n % p;
    j := if o + m < p then p - o - m else 0;
    FitsExactlyWhen(hi, j, n);
    TurnsInPoints(hi, j, n);
    if o + m < p {
      QuotientUnique(o + j + n, p, if n == p then 2 else 1, 0);
    } else {
      QuotientAtLeast(o + n, p, if n == p then 2 else 1);
      MulMonotone(if n == p then 2 else 1, Turns(hi, j, n), p);
    }
  }

  /** The buffer after both reads: absent cells were left zeroed. */
  function Cells<V>(ring: seq<Point<V>>, hi: Archive, j: int, n: int): (cells: seq<Option<Point<V>>>)
    requires Sound(hi) && |ring| == hi.points && 0 <= j < hi.points && 0 < n <= hi.points
    ensures |cells| == n
  {
    ReadSplit(hi, j, n);
    seq(n, i requires 0 <= i < n => var s := Source(hi, j, n, i); if s.Some? then Some(ring[s.value]) else None)
  }

  /** The values kept: those whose cell carries the timestamp expected there. */
  function Gather<V>(cells: seq<Option<Point<V>>>, cur: int, step: int): (vs: seq<V>)
    ensures |vs| <= |cells|
  {
    if cells == [] then []
    else (if cells[0].Some? && cells[0].value.timestamp == cur then [cells[0].value.value] else [])
         + Gather(cells[1..], Add32(cur, step), step)
  }

  /** The values handed to the aggregator when `t` is propagated from `hi` to `lo`. */
  function Known<V>(ring: seq<Point<V>>, hi: Archive, lo: Archive, t: int): (vs: seq<V>)
    requires Covers(hi, lo) && |ring| == hi.points
    ensures |vs| <= Count(hi, lo)
  {
    Gather(Cells(ring, hi, Slot(hi, ring[0].timestamp, Start(hi, lo, t)), Count(hi, lo)), Start(hi, lo, t), hi.step)
  }

  /** The window that `t` closes starts on a slot boundary, and its reads fit the read buffer. */
  predicate ReadFits<V>(ring: seq<Point<V>>, hi: Archive, lo: Archive, t: int)
    requires Covers(hi, lo) && |ring| == hi.points
  {
    && ByteDistance(hi, ring[0].timestamp, Start(hi, lo, t)) % POINT_SIZE == 0
    && Fits(hi, Slot(hi, ring[0].timestamp, Start(hi, lo, t)), Count(hi, lo))
  }

  // The reference: the values a map holds at n successive timestamps.

  function KnownIn<V>(m: map<int, V>, cur: int, step: int, n: nat): (vs: seq<V>)
    ensures |vs| <= n
    decreases n
  {
    if n == 0 then []
    else (if cur in m then [m[cur]] else []) + KnownIn(m, cur + step, step, n - 1)
  }

  /** Cell `i` holds the timestamp expected there exactly when the map has it, with its value. */
  ghost predicate Agrees<V>(cell: Option<Point<V>>, m: map<int, V>, cur: int) {
    && (cell.Some? && cell.value.timestamp == cur <==> cur in m)
    && (cur in m ==> cell.value.value == m[cur])
  }

  /** The `i`-th timestamp of a window. */
  function At(cur: int, step: int, i: int): int { cur + i * step }

  lemma AtNext(cur: int, step: int, i: int)
    ensures At(cur + step, step, i) == At(cur, step, i + 1)
  {
    assert (i + 1) * step == i * step + step;
  }

  lemma AtMonotone(cur: int, step: nat, i: int, j: int)
    requires i <= j
    ensures At(cur, step, i) <= At(cur, step, j)
  {
    MulMonotone(i, j, step);
  }

  ghost predicate AllAgree<V>(cells: seq<Option<Point<V>>>, m: map<int, V>, cur: int, step: int) {
    cells == [] || (Agrees(cells[0], m, cur) && AllAgree(cells[1..], m, cur + step, step))
  }

  lemma {:induction false} PointwiseAgree<V>(cells: seq<Option<Point<V>>>, m: map<int, V>, cur: int, step: int)
    requires forall i :: 0 <= i < |cells| ==> Agrees(cells[i], m, At(cur, step, i))
    ensures AllAgree(cells, m, cur, step)
  {
    if cells != [] {
      assert At(cur, step, 0) == cur;
      var rest := cells[1..];
      forall i | 0 <= i < |rest| ensures Agrees(rest[i], m, At(cur + step, step, i)) {
        AtNext(cur, step, i);
        assert rest[i] == cells[i + 1];
      }
      PointwiseAgree(rest, m, cur + step, step);
    }
  }

  lemma {:induction false} GatherAgrees<V>(cells: seq<Option<Point<V>>>, m: map<int, V>, cur: int, step: nat)
    requires 0 <= cur && (cells != [] ==> At(cur, step, |cells| - 1) < U32)
    requires AllAgree(cells, m, cur, step)
    ensures Gather(cells, cur, step) == KnownIn(m, cur, step, |cells|)
  {
    if |cells| > 1 {
      AtMonotone(cur, step, 1, |cells| - 1);
      assert At(cur, step, 1) == cur + step;
      Exact32(cur + step);
      AtNext(cur, step, |cells| - 2);
      GatherAgrees(cells[1..], m, cur + step, step);
    }
  }

  /** Slot 0 of the finer ring is the first point of some coarse window. */
  predicate OpensWindow(hi: Archive, lo: Archive, base: int)
    requires Sound(lo)
  {
    (base - hi.step) % lo.step == 0
  }

  /** The coarse step is a whole number of fine steps, and the fine ring a whole number of windows. */
  predicate Tiles(hi: Archive, lo: Archive) {
    Covers(hi, lo) && lo.step % hi.step == 0 && hi.points % Count(hi, lo) == 0
  }

  /** `k` coarse steps and one fine step, counted in fine steps of which `n` make a coarse one. */
  lemma FineTicks(h: int, n: int, k: int)
    requires 0 < h
    ensures (k * (n * h) + h) % h == 0 && (k * (n * h) + h) / h == k * n + 1
  {
    assert k * (n * h) + h == (k * n + 1) * h;
    MultipleHasNoRemainder(k * n + 1, h);
  }

  /** The slot where the window closed by `t` starts is a whole number of windows into the ring. */
  lemma WindowStartsOnMultiple(hi: Archive, lo: Archive, base: int, t: int)
    requires Tiles(hi, lo) && OpensWindow(hi, lo, base) && t % lo.step == 0
    ensures (t - lo.step + hi.step) % hi.step == 0 && base % hi.step == 0
    ensures Home(hi, base, t - lo.step + hi.step) % Count(hi, lo) == 0
  {
    var h, n := hi.step, Count(hi, lo);
    var u, v := (base - h) / lo.step, t / lo.step - 1;
    assert lo.step == n * h;
    assert base == u * (n * h) + h;
    assert t - lo.step + h == v * (n * h) + h;
    FineTicks(h, n, u);
    FineTicks(h, n, v);
    var x := (t - lo.step + h) / h - base / h;
    assert x == (v - u) * n;
    MultipleHasNoRemainder(v - u, n);
    ModKeepsDivisor(x, n, hi.points);
  }

  /** A window that starts a whole number of windows into the ring ends inside it. */
  lemma MultipleFits(j: int, n: int, p: int)
    requires 0 < n && 0 <= j < p && j % n == 0 && p % n == 0
    ensures j + n <= p
  {
    assert j == (j / n) * n && p == (p / n) * n;
    MulCancelLess(j / n, p / n, n);
    MulMonotone(j / n + 1, p / n, n);
    assert n * (j / n + 1) == j + n;
  }

  /**
   * Alignment rules out straddling: the window closed by `t` begins no earlier
   * than slot 0, and is one run of slots inside the ring.
   */
  lemma WindowIsOneRun(hi: Archive, lo: Archive, base: int, t: int)
    requires Tiles(hi, lo) && 0 < base <= t < U32 && OpensWindow(hi, lo, base) && t % lo.step == 0
    ensures base <= t - lo.step + hi.step <= t && Start(hi, lo, t) == t - lo.step + hi.step
    ensures Home(hi, base, t - lo.step + hi.step) + Count(hi, lo) <= hi.points
  {
    WindowStartsOnMultiple(hi, lo, base, t);
    MultipleFits(Home(hi, base, t - lo.step + hi.step), Count(hi, lo), hi.points);
    WindowAfterBase(hi.step, lo.step, base, t);
    StartIs(hi, lo, t);
  }

  lemma StartIs(hi: Archive, lo: Archive, t: int)
    requires 0 <= t - lo.step + hi.step <= t < U32
    ensures Start(hi, lo, t) == t - lo.step + hi.step
  {
  }

  lemma WindowAfterBase(h: int, l: int, base: int, t: int)
    requires 0 < h <= l && base <= t && (base - h) % l == 0 && t % l == 0
    ensures base <= t - l + h
  {
    MultiplesCombine(t, base - h, l);
    var z := (t - base + h) / l;
    assert z * l == t - base + h;
    MulCancelLess(0, z, l);
    MulAtLeast(z, l);
  }

  /** The timestamps of a window have successive homes. */
  lemma HomesInOrder(hi: Archive, base: int, s: int, i: int)
    requires Sound(hi) && s % hi.step == 0 && 0 <= i
    requires Home(hi, base, s) + i < hi.points
    ensures Home(hi, base, s + i * hi.step) == Home(hi, base, s) + i
    ensures (s + i * hi.step) % hi.step == 0
  {
    MultipleHasNoRemainder(i, hi.step);
    MultiplesCombine(s, i * hi.step, hi.step);
    var x := s / hi.step - base / hi.step;
    QuotientUnique(x + i, hi.points, x / hi.points, x % hi.points + i);
  }

  /** A window lies within the finer archive's reach and ends with its closing timestamp. */
  lemma WindowSpan(hi: Archive, lo: Archive, t: int, i: int)
    requires Covers(hi, lo) && lo.step % hi.step == 0 && 0 < t && t % lo.step == 0
    requires 0 <= i < Count(hi, lo)
    ensures lo.step <= t
    ensures 0 < t - lo.step + hi.step <= t - lo.step + hi.step + i * hi.step <= t
    ensures t - lo.step + hi.step + (Count(hi, lo) - 1) * hi.step == t
    ensures t < t - lo.step + hi.step + i * hi.step + hi.points * hi.step
  {
    var n := Count(hi, lo);
    assert lo.step == n * hi.step;
    assert (n - 1) * hi.step == lo.step - hi.step;
    MulMonotone(i, n - 1, hi.step);
    MulMonotone(0, i, hi.step);
    MulMonotone(n, hi.points, hi.step);
    assert hi.step * n == lo.step;
    MultipleAtLeast(t, lo.step);
  }

  /**
   * The window that `t` closes is read as meant from a ring with slot 0 at
   * `base`: from a slot boundary, inside the buffer, each cell from the home of
   * its timestamp.
   */
  ghost predicate AsMeant(hi: Archive, lo: Archive, base: int, t: int)
    requires Covers(hi, lo)
  {
    && ByteDistance(hi, base, Start(hi, lo, t)) % POINT_SIZE == 0
    && Fits(hi, Slot(hi, base, Start(hi, lo, t)), Count(hi, lo))
    && CellsMeant(hi, lo, base, t)
  }

  /** Each cell comes from the home of its timestamp. */
  ghost predicate CellsMeant(hi: Archive, lo: Archive, base: int, t: int)
    requires Covers(hi, lo)
  {
    var s, n := Start(hi, lo, t), Count(hi, lo);
    var j := Slot(hi, base, s);
    forall i :: 0 <= i < n ==> Source(hi, j, n, i) == Some(Home(hi, base, At(s, hi.step, i)))
  }

  /** The timestamps of a window have their homes one after the other around the ring. */
  lemma HomesFollow(hi: Archive, base: int, s: int, i: int)
    requires Sound(hi) && s % hi.step == 0
    ensures Home(hi, base, At(s, hi.step, i)) == After(hi, Home(hi, base, s), i)
  {
    MultipleHasNoRemainder(i, hi.step);
    MultiplesCombine(s, i * hi.step, hi.step);
    var x, p := s / hi.step - base / hi.step, hi.points;
    assert x + i == x % p + i + (x / p) * p;
    ModShift(x % p + i, x / p, p);
  }

  /** The window starts inside 32 bits, on a multiple of the fine step. */
  lemma WindowStart(hi: Archive, lo: Archive, t: int)
    requires Covers(hi, lo) && lo.step % hi.step == 0 && 0 < t < U32 && t % lo.step == 0
    ensures Start(hi, lo, t) == t - lo.step + hi.step && 0 < t - lo.step + hi.step <= t
    ensures (t - lo.step + hi.step) % hi.step == 0
  {
    WindowSpan(hi, lo, t, 0);
    StartIs(hi, lo, t);
    StartsOnMultiple(hi.step, lo.step, t);
  }

  lemma StartsOnMultiple(h: int, l: int, t: int)
    requires 0 < h && 0 < l && l % h == 0 && t % l == 0
    ensures (t - l + h) % h == 0
  {
    DividesTransitive(h, l, t);
    MultiplesCombine(t, l, h);
    ModShift(t - l, 1, h);
  }

  /**
   * A window is read as meant exactly when the wrap-arounds of the start's
   * distance are whole laps and the second read from the start's home is right.
   */
  lemma ReadAsMeantExactlyWhen(hi: Archive, lo: Archive, base: int, t: int)
    requires Covers(hi, lo) && lo.step % hi.step == 0 && 0 < t < U32 && t % lo.step == 0
    requires 0 <= base < U32 && base % hi.step == 0
    ensures var s := t - lo.step + hi.step;
            AsMeant(hi, lo, base, t)
            <==> Displacement(hi, base, s) % Size(hi) == 0 && SecondReadRight(hi, Home(hi, base, s), Count(hi, lo))
  {
    var s, n := t - lo.step + hi.step, Count(hi, lo);
    var j, h := Slot(hi, base, s), Home(hi, base, s);
    WindowStart(hi, lo, t);
    AtHomeExactlyWhen(hi, base, s);
    ReadFromExactlyWhen(hi, h, n);
    ReadSplit(hi, j, n);
    HomesFollow(hi, base, s, 0);
    AfterIs(hi, h, 0);
    assert Source(hi, j, n, 0) == Some(j);
    forall i | 0 <= i < n ensures Home(hi, base, At(s, hi.step, i)) == After(hi, h, i) {
      HomesFollow(hi, base, s, i);
    }
  }

  /** If slot 0 opens a window, the start of every window is found at home and the window ends inside the ring. */
  lemma AlignedStart(hi: Archive, lo: Archive, base: int, t: int)
    requires Tiles(hi, lo) && 0 < base && t % lo.step == 0
    requires OpensWindow(hi, lo, base) && InRange(hi, base, t)
    ensures var s := t - lo.step + hi.step;
            && Start(hi, lo, t) == s && s % hi.step == 0 && ByteDistance(hi, base, s) == POINT_SIZE * Home(hi, base, s)
            && Home(hi, base, s) + Count(hi, lo) <= hi.points
  {
    var s := t - lo.step + hi.step;
    WindowIsOneRun(hi, lo, base, t);
    WindowStartsOnMultiple(hi, lo, base, t);
    DivMonotone(s - base, t - base, hi.step);
    SlotIsHome(hi, base, s);
  }

  lemma AlignedCells(hi: Archive, lo: Archive, base: int, t: int)
    requires Tiles(hi, lo) && 0 < base && t % lo.step == 0
    requires OpensWindow(hi, lo, base) && InRange(hi, base, t)
    ensures CellsMeant(hi, lo, base, t)
  {
    var s, n := t - lo.step + hi.step, Count(hi, lo);
    AlignedStart(hi, lo, base, t);
    var j := Slot(hi, base, s);
    ReadSplit(hi, j, n);
    forall i | 0 <= i < n ensures Source(hi, j, n, i) == Some(Home(hi, base, At(s, hi.step, i))) {
      HomesInOrder(hi, base, s, i);
    }
  }

  /** So it is read as meant if its reads fit. */
  lemma AlignedIsMeant(hi: Archive, lo: Archive, base: int, t: int)
    requires Tiles(hi, lo) && 0 < base && t % lo.step == 0
    requires OpensWindow(hi, lo, base) && InRange(hi, base, t)
    requires Fits(hi, Slot(hi, base, Start(hi, lo, t)), Count(hi, lo))
    ensures AsMeant(hi, lo, base, t)
  {
    AlignedStart(hi, lo, base, t);
    AlignedCells(hi, lo, base, t);
  }

  lemma CellAgrees<V(!new)>(ring: seq<Point<V>>, hi: Archive, lo: Archive, m: map<int, V>, t: int, i: int)
    requires Covers(hi, lo) && lo.step % hi.step == 0 && Refines(ring, hi, m, t)
    requires 0 < t < U32 && t % lo.step == 0 && 0 <= i < Count(hi, lo)
    requires ring[0].timestamp != 0 ==> CellsMeant(hi, lo, ring[0].timestamp, t)
    ensures var s := t - lo.step + hi.step;
            Agrees(Cells(ring, hi, Slot(hi, ring[0].timestamp, s), Count(hi, lo))[i], m, At(s, hi.step, i))
  {
    var base, n, s := ring[0].timestamp, Count(hi, lo), t - lo.step + hi.step;
    var j, c := Slot(hi, base, s), At(s, hi.step, i);
    WindowSpan(hi, lo, t, i);
    WindowStart(hi, lo, t);
    ReadSplit(hi, j, n);
    if base == 0 {
      assert forall k :: 0 <= k < |ring| && ring[k].timestamp != 0 ==> Kept(ring, hi, m, k);
    } else {
      var h := Home(hi, base, c);
      assert Source(hi, j, n, i) == Some(h);
      assert ring[h].timestamp != 0 ==> Kept(ring, hi, m, h);
      assert c in m ==> Stored(ring, hi, m, c);
    }
  }

  lemma {:induction false} CellsAgree<V(!new)>(ring: seq<Point<V>>, hi: Archive, lo: Archive, m: map<int, V>, t: int)
    requires Covers(hi, lo) && lo.step % hi.step == 0 && Refines(ring, hi, m, t) && 0 < t < U32 && t % lo.step == 0
    requires ring[0].timestamp != 0 ==> CellsMeant(hi, lo, ring[0].timestamp, t)
    ensures var s := t - lo.step + hi.step;
            AllAgree(Cells(ring, hi, Slot(hi, ring[0].timestamp, s), Count(hi, lo)), m, s, hi.step)
  {
    var s := t - lo.step + hi.step;
    var cells := Cells(ring, hi, Slot(hi, ring[0].timestamp, s), Count(hi, lo));
    forall i | 0 <= i < |cells| ensures Agrees(cells[i], m, At(s, hi.step, i)) {
      CellAgrees(ring, hi, lo, m, t, i);
    }
    PointwiseAgree(cells, m, s, hi.step);
  }

  lemma {:induction false} KnownIsExact<V(!new)>(ring: seq<Point<V>>, hi: Archive, lo: Archive, m: map<int, V>, t: int)
    requires Covers(hi, lo) && lo.step % hi.step == 0 && Refines(ring, hi, m, t) && 0 < t < U32 && t % lo.step == 0
    requires ring[0].timestamp != 0 ==> CellsMeant(hi, lo, ring[0].timestamp, t)
    ensures Known(ring, hi, lo, t) == KnownIn(m, t - lo.step + hi.step, hi.step, Count(hi, lo))
  {
    var s := t - lo.step + hi.step;
    WindowSpan(hi, lo, t, 0);
    WindowStart(hi, lo, t);
    CellsAgree(ring, hi, lo, m, t);
    GatherAgrees(Cells(ring, hi, Slot(hi, ring[0].timestamp, s), Count(hi, lo)), m, s, hi.step);
  }

  lemma {:induction false} AlignedKnownIsExact<V(!new)>(ring: seq<Point<V>>, hi: Archive, lo: Archive, m: map<int, V>, t: int)
    requires Tiles(hi, lo) && Refines(ring, hi, m, t) && 0 < t < U32 && t % lo.step == 0
    requires ring[0].timestamp != 0 ==>
               OpensWindow(hi, lo, ring[0].timestamp) && InRange(hi, ring[0].timestamp, t)
    ensures Known(ring, hi, lo, t) == KnownIn(m, t - lo.step + hi.step, hi.step, Count(hi, lo))
  {
    if ring[0].timestamp != 0 {
      assert Kept(ring, hi, m, 0);
      AlignedCells(hi, lo, ring[0].timestamp, t);
    }
    KnownIsExact(ring, hi, lo, m, t);
  }

  /**
   * What the aggregator gets when the newest timestamp `t` is propagated is what
   * the finer map holds at t - L + H, ..., t, in order, if the window is read as
   * meant.
   */
  lemma {:induction false} MeantIsExact<V(!new)>(ring: seq<Point<V>>, hi: Archive, lo: Archive, m: map<int, V>, t: int)
    requires Covers(hi, lo) && lo.step % hi.step == 0 && Refines(ring, hi, m, t) && 0 < t < U32 && t % lo.step == 0
    requires ring[0].timestamp != 0 ==> AsMeant(hi, lo, ring[0].timestamp, t)
    ensures Known(ring, hi, lo, t) == KnownIn(m, t - lo.step + hi.step, hi.step, Count(hi, lo))
  {
    KnownIsExact(ring, hi, lo, m, t);
  }

  /** Window read: so it is whenever slot 0 opens a window and the reads fit. */
  lemma {:induction false} WindowReadExact<V(!new)>(ring: seq<Point<V>>, hi: Archive, lo: Archive, m: map<int, V>, t: int)
    requires Tiles(hi, lo) && Refines(ring, hi, m, t) && 0 < t < U32 && t % lo.step == 0
    requires ring[0].timestamp != 0 ==>
               OpensWindow(hi, lo, ring[0].timestamp) && InRange(hi, ring[0].timestamp, t)
    requires ReadFits(ring, hi, lo, t)
    ensures ring[0].timestamp != 0 ==> AsMeant(hi, lo, ring[0].timestamp, t)
    ensures Known(ring, hi, lo, t) == KnownIn(m, t - lo.step + hi.step, hi.step, Count(hi, lo))
  {
    if ring[0].timestamp != 0 {
      assert Kept(ring, hi, m, 0);
      AlignedIsMeant(hi, lo, ring[0].timestamp, t);
    }
    AlignedKnownIsExact(ring, hi, lo, m, t);
  }
}
