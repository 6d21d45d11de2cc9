/**
 * Byte layout of a whisper file: a 16-byte header, one 12-byte record per
 * archive, then the archives' regions of 12-byte points, end to end.
 */
module Layout {
  import opened Arith
  import opened Words
  import opened Ring

  const HEADER_SIZE: int := 16
  const RECORD_SIZE: int := 12

  /** One `timePerPoint:timeToStore` pair of a storage schema, in seconds. */
  datatype Retention = Retention(perPoint: int, toStore: int)

  /** Periods are positive and long enough for at least one point. */
  predicate Usable(rets: seq<Retention>) {
    forall k :: 0 <= k < |rets| ==> 0 < rets[k].perPoint <= rets[k].toStore
  }

  function PointsOf(r: Retention): int
    requires 0 < r.perPoint
  {
    r.toStore / r.perPoint
  }

  /** Bytes of the first regions of a list. */
  function RegionBytes(rets: seq<Retention>): (n: int)
    requires Usable(rets)
    ensures 0 <= n
  {
    if rets == [] then 0
    else RegionBytes(rets[..|rets| - 1]) + PointsOf(rets[|rets| - 1]) * POINT_SIZE
  }

  function RegionStart(rets: seq<Retention>, k: int): int
    requires Usable(rets) && 0 <= k <= |rets|
  {
    HEADER_SIZE + |rets| * RECORD_SIZE + RegionBytes(rets[..k])
  }

  function FileSize(rets: seq<Retention>): int
    requires Usable(rets)
  {
    RegionStart(rets, |rets|)
  }

  function ArchiveOf(rets: seq<Retention>, k: int): Archive
    requires Usable(rets) && 0 <= k < |rets|
  {
    Archive(RegionStart(rets, k), rets[k].perPoint, PointsOf(rets[k]))
  }

  function ArchivesOf(rets: seq<Retention>): (archives: seq<Archive>)
    requires Usable(rets)
    ensures |archives| == |rets|
  {
    seq(|rets|, k requires 0 <= k < |rets| => ArchiveOf(rets, k))
  }

  lemma PointsPositive(r: Retention)
    requires 0 < r.perPoint <= r.toStore
    ensures 0 < PointsOf(r)
  {
    QuotientAtLeast(r.toStore, r.perPoint, 1);
  }

  /** An archive has a point for every whole period of its time to store. */
  lemma PointsAreWholePeriods(r: Retention)
    requires 0 < r.perPoint
    ensures PointsOf(r) * r.perPoint <= r.toStore < (PointsOf(r) + 1) * r.perPoint
  {
  }

  lemma RegionStep(rets: seq<Retention>, k: int)
    requires Usable(rets) && 0 <= k < |rets|
    ensures RegionStart(rets, k + 1) == RegionStart(rets, k) + Size(ArchiveOf(rets, k))
    ensures 0 < Size(ArchiveOf(rets, k))
  {
    assert rets[..k + 1][..k] == rets[..k];
    PointsPositive(rets[k]);
  }

  lemma {:induction false} RegionsInOrder(rets: seq<Retention>, i: int, j: int)
    requires Usable(rets) && 0 <= i <= j <= |rets|
    ensures HEADER_SIZE + |rets| * RECORD_SIZE <= RegionStart(rets, i) <= RegionStart(rets, j)
    ensures i < j ==> RegionStart(rets, i) + Size(ArchiveOf(rets, i)) <= RegionStart(rets, j)
    decreases j
  {
    if i < j {
      RegionsInOrder(rets, i, j - 1);
      RegionStep(rets, j - 1);
    } else if 0 < i {
      RegionsInOrder(rets, i - 1, j - 1);
      RegionStep(rets, i - 1);
    }
  }

  /** The two loops of `whisper_get_archive_offset`. */
  method ArchiveOffset(rets: seq<Retention>, id: int) returns (offset: int)
    requires Usable(rets) && 0 <= id <= |rets| && FileSize(rets) < U32
    ensures offset == RegionStart(rets, id)
    ensures 0 <= offset < U32
  {
    offset := HEADER_SIZE;
    for i := 0 to |rets|
      invariant offset == HEADER_SIZE + i * RECORD_SIZE
    {
      offset := offset + RECORD_SIZE;
    }
    for k := 0 to id
      invariant offset == RegionStart(rets, k)
    {
      RegionStep(rets, k);
      offset := offset + rets[k].toStore / rets[k].perPoint * POINT_SIZE;
    }
    RegionsInOrder(rets, id, |rets|);
  }

  // Every byte of a file belongs to exactly one part.

  datatype Part = Header | Record(k: int) | Region(k: int)

  predicate IsPart(rets: seq<Retention>, part: Part) {
    part.Header? || 0 <= part.k < |rets|
  }

  predicate Within(rets: seq<Retention>, part: Part, i: int)
    requires Usable(rets) && IsPart(rets, part)
  {
    match part
    case Header => 0 <= i < HEADER_SIZE
    case Record(k) => HEADER_SIZE + k * RECORD_SIZE <= i < HEADER_SIZE + (k + 1) * RECORD_SIZE
    case Region(k) => RegionStart(rets, k) <= i < RegionStart(rets, k) + Size(ArchiveOf(rets, k))
  }

  /** The region that byte `i` lies in, among the first `k`. */
  function RegionOf(rets: seq<Retention>, i: int, k: int): (r: int)
    requires Usable(rets) && 0 <= k <= |rets| && RegionStart(rets, 0) <= i < RegionStart(rets, k)
    ensures 0 <= r < k && Within(rets, Region(r), i)
    decreases k
  {
    RegionStep(rets, k - 1);
    if RegionStart(rets, k - 1) <= i then k - 1 else RegionOf(rets, i, k - 1)
  }

  function PartOf(rets: seq<Retention>, i: int): (part: Part)
    requires Usable(rets) && 0 <= i < FileSize(rets)
    ensures IsPart(rets, part) && Within(rets, part, i)
  {
    if i < HEADER_SIZE then Header
    else if i < RegionStart(rets, 0) then Record((i - HEADER_SIZE) / RECORD_SIZE)
    else Region(RegionOf(rets, i, |rets|))
  }

  /** Layout partition: header, records and regions are disjoint, and cover exactly the bytes of the file. */
  lemma LayoutPartition(rets: seq<Retention>, part: Part, i: int)
    requires Usable(rets) && IsPart(rets, part)
    ensures Within(rets, part, i) <==> 0 <= i < FileSize(rets) && PartOf(rets, i) == part
  {
    if Within(rets, part, i) {
      WithinFile(rets, part, i);
      PartsDisjoint(rets, part, PartOf(rets, i), i);
    }
  }

  lemma WithinFile(rets: seq<Retention>, part: Part, i: int)
    requires Usable(rets) && IsPart(rets, part) && Within(rets, part, i)
    ensures 0 <= i < FileSize(rets)
    ensures part.Region? <==> RegionStart(rets, 0) <= i
  {
    RegionsInOrder(rets, 0, |rets|);
    if part.Region? {
      RegionStep(rets, part.k);
      RegionsInOrder(rets, part.k + 1, |rets|);
      RegionsInOrder(rets, 0, part.k);
    }
  }

  lemma PartsDisjoint(rets: seq<Retention>, p: Part, q: Part, i: int)
    requires Usable(rets) && IsPart(rets, p) && IsPart(rets, q) && Within(rets, p, i) && Within(rets, q, i)
    ensures p == q
  {
    WithinFile(rets, p, i);
    WithinFile(rets, q, i);
    if p.Region? {
      if p.k < q.k {
        RegionsInOrder(rets, p.k, q.k);
      } else if q.k < p.k {
        RegionsInOrder(rets, q.k, p.k);
      }
    }
  }
}
