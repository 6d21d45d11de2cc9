/** The read buffer of `whisper_write_propagate`, byte by byte, against the window of the slot model. */
module ReadBuffer {
  import opened Arith
  import opened Words
  import opened Ring
  import opened Window
  import opened Image

  const EMPTY_CELL: Bytes := [0, 0, 0, 0, 0, 0, 0, 0, 0, 0, 0, 0]

  /** The twelve bytes of slot `j`. */
  function SlotBytesAt(b: Bytes, a: Archive, j: int): (s: Bytes)
    requires Sound(a) && a.offset + Size(a) <= |b| && 0 <= j < a.points
    ensures |s| == POINT_SIZE
  {
    b[a.offset + j * POINT_SIZE..a.offset + j * POINT_SIZE + POINT_SIZE]
  }

  /** Cell `i` of the read buffer as the two reads leave it. */
  function CellBytes(b: Bytes, hi: Archive, j: int, n: int, i: int): (s: Bytes)
    requires Sound(hi) && hi.offset + Size(hi) <= |b| && 0 <= j < hi.points && 0 <= i < n <= hi.points
    ensures |s| == POINT_SIZE
  {
    ReadSplit(hi, j, n);
    var s := Source(hi, j, n, i);
    if s.Some? then SlotBytesAt(b, hi, s.value) else EMPTY_CELL
  }

  /** The buffer decoded cell by cell. */
  function Decoded(buf: Bytes, n: int): (cells: seq<Option<Point<int>>>)
    requires 0 <= n && n * POINT_SIZE <= |buf|
    ensures |cells| == n
  {
    seq(n, i requires 0 <= i < n => Some(DecodePoint(Cell(buf, i))))
  }

  predicate Matches<V>(cell: Option<Point<V>>, cur: int) {
    cell.Some? && cell.value.timestamp == cur
  }

  /** The two cells are kept or dropped alike at timestamp `cur`. */
  ghost predicate Alike<V>(c: Option<Point<V>>, d: Option<Point<V>>, cur: int) {
    (Matches(c, cur) <==> Matches(d, cur)) && (Matches(c, cur) ==> c == d)
  }

  /** The running timestamp of the gathering loop after `i` rounds of 32-bit additions. */
  function Nth(cur: int, step: int, i: nat): int {
    if i == 0 then cur else Add32(Nth(cur, step, i - 1), step)
  }

  lemma {:induction false} NthNext(cur: int, step: int, i: nat)
    ensures Nth(cur, step, i + 1) == Nth(Add32(cur, step), step, i)
  {
    if i > 0 {
      NthNext(cur, step, i - 1);
    }
  }

  /** While nothing overflows the running timestamp is the exact one. */
  lemma {:induction false} NthIsAt(cur: int, step: nat, i: nat)
    requires 0 <= cur && At(cur, step, i) < U32
    ensures Nth(cur, step, i) == At(cur, step, i)
  {
    if i == 0 {
      assert At(cur, step, 0) == cur;
    } else {
      AtMonotone(cur, step, 0, i - 1);
      AtMonotone(cur, step, i - 1, i);
      NthIsAt(cur, step, i - 1);
      assert At(cur, step, i) == At(cur, step, i - 1) + step;
    }
  }

  lemma {:induction false} GatherAlike<V>(c: seq<Option<Point<V>>>, d: seq<Option<Point<V>>>, cur: int, step: int)
    requires |c| == |d| && forall i :: 0 <= i < |c| ==> Alike(c[i], d[i], Nth(cur, step, i))
    ensures Gather(c, cur, step) == Gather(d, cur, step)
  {
    if c != [] {
      assert Alike(c[0], d[0], Nth(cur, step, 0));
      forall i | 0 <= i < |c[1..]| ensures Alike(c[1..][i], d[1..][i], Nth(Add32(cur, step), step, i)) {
        NthNext(cur, step, i);
        assert Alike(c[i + 1], d[i + 1], Nth(cur, step, i + 1));
      }
      GatherAlike(c[1..], d[1..], Add32(cur, step), step);
    }
  }

  /** A zeroed cell carries timestamp 0 and so never matches. */
  lemma EmptyCellIsEmpty()
    ensures DecodePoint(EMPTY_CELL).timestamp == 0
  {
    assert EMPTY_CELL[..4] == [0, 0, 0, 0];
  }

  /** No timestamp expected in a window is 0. */
  lemma {:induction false} ExpectedIsNonzero(hi: Archive, lo: Archive, t: int, i: int)
    requires Covers(hi, lo) && lo.step <= t < U32 && 0 <= i < Count(hi, lo)
    ensures 0 < Nth(Start(hi, lo, t), hi.step, i)
  {
    var n, s := Count(hi, lo), t - lo.step + hi.step;
    StartIs(hi, lo, t);
    MulMonotone(i + 1, n, hi.step);
    assert At(s, hi.step, i) == t - lo.step + hi.step * (i + 1);
    AtMonotone(s, hi.step, 0, i);
    NthIsAt(s, hi.step, i);
  }

  /** A decoded buffer cell is kept or dropped like the cell of the slot model. */
  lemma CellAlike(b: Bytes, hi: Archive, j: int, n: int, i: int, cell: Bytes, cur: int)
    requires Sound(hi) && hi.offset + Size(hi) <= |b| && 0 <= j < hi.points && 0 <= i < n <= hi.points
    requires |cell| == POINT_SIZE && cell == CellBytes(b, hi, j, n, i) && cur != 0
    ensures Alike(Some(DecodePoint(cell)), Cells(RingAt(b, hi), hi, j, n)[i], cur)
  {
    ReadSplit(hi, j, n);
    EmptyCellIsEmpty();
  }

  /** What the buffer yields is what the slot model says the aggregator gets. */
  lemma BufferYieldsKnown(b: Bytes, hi: Archive, lo: Archive, t: int, buf: Bytes)
    requires Covers(hi, lo) && hi.offset + Size(hi) <= |b| && lo.step <= t < U32 && |buf| == Size(hi)
    requires HasCells(buf, b, hi, Slot(hi, RingAt(b, hi)[0].timestamp, Start(hi, lo, t)), Count(hi, lo))
    ensures Gather(Decoded(buf, Count(hi, lo)), Start(hi, lo, t), hi.step) == Known(RingAt(b, hi), hi, lo, t)
  {
    var n, s, ring := Count(hi, lo), Start(hi, lo, t), RingAt(b, hi);
    var j := Slot(hi, ring[0].timestamp, s);
    var c, d := Decoded(buf, n), Cells(ring, hi, j, n);
    forall i | 0 <= i < n ensures Alike(c[i], d[i], Nth(s, hi.step, i)) {
      ExpectedIsNonzero(hi, lo, t, i);
      CellAlike(b, hi, j, n, i, Cell(buf, i), Nth(s, hi.step, i));
    }
    GatherAlike(c, d, s, hi.step);
  }

  function Cell(buf: Bytes, i: int): (s: Bytes)
    requires 0 <= i && (i + 1) * POINT_SIZE <= |buf|
    ensures |s| == POINT_SIZE
  {
    buf[i * POINT_SIZE..i * POINT_SIZE + POINT_SIZE]
  }

  /** The first `n` cells of the buffer are as the two reads should leave them. */
  ghost predicate HasCells(buf: Bytes, b: Bytes, hi: Archive, j: int, n: int)
    requires Sound(hi) && hi.offset + Size(hi) <= |b| && 0 <= j < hi.points && 0 < n <= hi.points && |buf| == Size(hi)
  {
    forall i :: 0 <= i < n ==> Cell(buf, i) == CellBytes(b, hi, j, n, i)
  }

  /** A buffer filled by a read from slot `j` on, then one from slot 0 on, then zeros. */
  lemma FilledHasCells(buf: Bytes, b: Bytes, hi: Archive, j: int, n: int, x: Bytes, y: Bytes)
    requires Sound(hi) && hi.offset + Size(hi) <= |b| && 0 <= j < hi.points && 0 < n <= hi.points && Fits(hi, j, n)
    requires |x| == FirstRead(hi, j, n) * POINT_SIZE && |y| == SecondRead(hi, j, n) * POINT_SIZE
    requires |x| <= Size(hi) - j * POINT_SIZE && |x| + |y| <= Size(hi)
    requires x == b[ReadFrom(hi, j)..ReadFrom(hi, j) + |x|] && y == b[hi.offset..hi.offset + |y|]
    requires buf == Splice(Splice(seq(Size(hi), _ => 0), 0, x), |x|, y)
    ensures HasCells(buf, b, hi, j, n)
  {
    assert buf[..|x|] == x && buf[|x|..|x| + |y|] == y;
    forall i | 0 <= i < n ensures Cell(buf, i) == CellBytes(b, hi, j, n, i) {
      FilledCell(buf, b, hi, j, n, i);
    }
  }

  lemma FilledCell(buf: Bytes, b: Bytes, hi: Archive, j: int, n: int, i: int)
    requires Sound(hi) && hi.offset + Size(hi) <= |b| && 0 <= j < hi.points && 0 <= i < n <= hi.points && |buf| == Size(hi)
    requires var f, g := FirstRead(hi, j, n) * POINT_SIZE, SecondRead(hi, j, n) * POINT_SIZE;
             && 0 <= f <= Size(hi) - j * POINT_SIZE && 0 <= g <= Size(hi) - f
             && buf[..f] == b[ReadFrom(hi, j)..ReadFrom(hi, j) + f]
             && buf[f..f + g] == b[hi.offset..hi.offset + g]
             && forall i :: f + g <= i < |buf| ==> buf[i] == 0
    ensures Cell(buf, i) == CellBytes(b, hi, j, n, i)
  {
    ReadSplit(hi, j, n);
    var f, g, at := FirstRead(hi, j, n), SecondRead(hi, j, n), i * POINT_SIZE;
    if i < f {
      SliceOfEqual(buf, 0, f * POINT_SIZE, b, ReadFrom(hi, j), at);
      assert Cell(buf, i) == SlotBytesAt(b, hi, j + i);
    } else if i < f + g {
      SliceOfEqual(buf, f * POINT_SIZE, f * POINT_SIZE + g * POINT_SIZE, b, hi.offset, at);
      assert Cell(buf, i) == SlotBytesAt(b, hi, i - f);
    } else {
      assert Cell(buf, i) == EMPTY_CELL;
    }
  }

  /** Equal stretches have equal cells. */
  lemma SliceOfEqual(x: Bytes, lo: int, hi: int, y: Bytes, from: int, at: int)
    requires 0 <= lo <= at && at + POINT_SIZE <= hi <= |x| && 0 <= from && from + (hi - lo) <= |y|
    requires x[lo..hi] == y[from..from + (hi - lo)]
    ensures x[at..at + POINT_SIZE] == y[from + (at - lo)..from + (at - lo) + POINT_SIZE]
  {
    var left, right := x[at..at + POINT_SIZE], y[from + (at - lo)..from + (at - lo) + POINT_SIZE];
    forall m | 0 <= m < POINT_SIZE ensures left[m] == right[m] {
      assert x[lo..hi][at - lo + m] == y[from..from + (hi - lo)][at - lo + m];
    }
  }

  /** Taking one more cell into account. */
  lemma {:induction false} GatherSnoc<V>(cells: seq<Option<Point<V>>>, cur: int, step: int, last: Option<Point<V>>)
    ensures Gather(cells + [last], cur, step)
         == Gather(cells, cur, step) + (if Matches(last, Nth(cur, step, |cells|)) then [last.value.value] else [])
  {
    if cells == [] {
      assert (cells + [last])[1..] == [];
    } else {
      assert (cells + [last])[1..] == cells[1..] + [last];
      GatherSnoc(cells[1..], Add32(cur, step), step, last);
      NthNext(cur, step, |cells| - 1);
    }
  }
}
