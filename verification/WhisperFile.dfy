/** The operations of src/whisper.c on the bytes of an open file. */
module WhisperFile {
  import opened Arith
  import opened Words
  import opened Ring
  import opened Window
  import opened Layout
  import opened Image
  import opened ReadBuffer
  import Engine
  import Monitoring

  /** Files stay below the largest offset `whisper_seek` can be given. */
  const MAX_FILE: int := 0x8000_0000

  /** The floating-point operations of the machine, on bit patterns. */
  datatype Fpu = Fpu(aggregate: (Word32, seq<int>) -> Word64, single: Word32 -> real)

  function PolicyOf(fpu: Fpu, md: Metadata): Engine.Policy<int> {
    Engine.Policy((vs: seq<int>) => fpu.aggregate(md.aggregation, vs), fpu.single(md.xff))
  }

  lemma PrefixSlice(b: Bytes, pre: Bytes, lo: int, hi: int)
    requires 0 <= lo <= hi <= |pre| <= |b| && b[..|pre|] == pre
    ensures b[lo..hi] == pre[lo..hi]
  {
    var left, right := b[lo..hi], pre[lo..hi];
    forall i | 0 <= i < hi - lo ensures left[i] == right[i] {
      assert b[..|pre|][lo + i] == pre[lo + i];
    }
  }

  /** A slot is its first four bytes and its last eight. */
  lemma CellHalves(b: Bytes, at: int)
    requires 0 <= at && at + POINT_SIZE <= |b|
    ensures b[at..at + POINT_SIZE][..4] == b[at..at + 4]
    ensures b[at..at + POINT_SIZE][4..] == b[at + 4..at + 12]
  {
    var cell, t, v := b[at..at + POINT_SIZE], b[at..at + 4], b[at + 4..at + 12];
    assert forall i :: 0 <= i < 4 ==> cell[i] == b[at + i] == t[i];
    assert forall i :: 4 <= i < 12 ==> cell[i] == b[at + i] == v[i - 4];
  }

  lemma SpliceNothing(b: Bytes, at: int)
    requires 0 <= at <= |b|
    ensures Splice(b, at, []) == b
  {
  }

  /** The counter took exactly `n` more slot writes. */
  ghost predicate Counted(monitor: Monitoring.Counter, pending: nat, settled: nat, reported: nat, n: nat)
    reads monitor
  {
    monitor.Valid() && monitor.pending == pending + n && monitor.settled == settled && monitor.reported == reported
  }

  /** The bytes are the preamble followed by archives with these contents. */
  ghost predicate Holds(b: Bytes, preamble: Bytes, archives: seq<Archive>, rings: seq<seq<Point<int>>>) {
    && LaidOut(archives, |b|) && EndOf(archives) < MAX_FILE
    && |preamble| == archives[0].offset && b[..|preamble|] == preamble
    && rings == RingsAt(b, archives)
  }

  function Zeros(n: nat): Bytes { seq(n, _ => 0) }

  /** The bytes of a new file. */
  function ImageOf(md: Metadata, rets: seq<Retention>): (b: Bytes)
    requires Usable(rets) && forall k :: 0 <= k < |rets| ==> Encodable(ArchivesOf(rets)[k])
    ensures |b| == FileSize(rets)
  {
    assert rets[..|rets|] == rets;
    PreambleOf(md, ArchivesOf(rets)) + Zeros(RegionBytes(rets))
  }

  lemma NewFileIsBlank(md: Metadata, rets: seq<Retention>, k: int, j: int)
    requires Usable(rets) && LaidOut(ArchivesOf(rets), FileSize(rets))
    requires 0 <= k < |rets| && 0 <= j < ArchivesOf(rets)[k].points
    ensures RingsAt(ImageOf(md, rets), ArchivesOf(rets))[k][j].timestamp == 0
  {
    ZerosAreBlank(ImageOf(md, rets), ArchivesOf(rets), k, j);
  }

  /** A new file has the metadata and the archives it was made from, and every slot is empty. */
  lemma NewFile(md: Metadata, rets: seq<Retention>)
    requires Usable(rets) && rets != [] && FileSize(rets) < MAX_FILE && md.archiveCount == |rets|
    requires LaidOut(ArchivesOf(rets), FileSize(rets)) && EndOf(ArchivesOf(rets)) == FileSize(rets)
    ensures var b, archives := ImageOf(md, rets), ArchivesOf(rets);
            && IsPreamble(PreambleOf(md, archives), md, archives)
            && Holds(b, PreambleOf(md, archives), archives, RingsAt(b, archives))
            && forall k, j :: 0 <= k < |archives| && 0 <= j < archives[k].points ==> RingsAt(b, archives)[k][j].timestamp == 0
  {
    PreambleRoundTrip(md, ArchivesOf(rets));
    forall k, j | 0 <= k < |rets| && 0 <= j < ArchivesOf(rets)[k].points
      ensures RingsAt(ImageOf(md, rets), ArchivesOf(rets))[k][j].timestamp == 0
    {
      NewFileIsBlank(md, rets, k, j);
    }
  }

  /** The first sixteen bytes: aggregation type, longest time to store, x-files factor and number of archives. */
  ghost predicate HasHeader(b: Bytes, rets: seq<Retention>, aggregation: Word32, xff: Word32) {
    && 16 <= |b| && Field(b, 0) == aggregation && IsLongest(rets, Field(b, 4))
    && Field(b, 8) == xff && Field(b, 12) == |rets|
  }

  /** The twelve bytes of record `k`: where its region starts, seconds per point, and one point per whole period. */
  ghost predicate HasRecord(b: Bytes, rets: seq<Retention>, k: int)
    requires Usable(rets) && 0 <= k < |rets|
  {
    var at := 16 + 12 * k;
    && at + 12 <= |b| && Field(b, at) == RegionStart(rets, k) && Field(b, at + 4) == rets[k].perPoint
    && Field(b, at + 8) * rets[k].perPoint <= rets[k].toStore < (Field(b, at + 8) + 1) * rets[k].perPoint
  }

  lemma PrefixField(b: Bytes, pre: Bytes, at: int)
    requires |pre| <= |b| && b[..|pre|] == pre && 0 <= at && at + 4 <= |pre|
    ensures Field(b, at) == Field(pre, at)
  {
    PrefixSlice(b, pre, at, at + 4);
  }

  lemma NewFileHeader(b: Bytes, pre: Bytes, md: Metadata, rets: seq<Retention>)
    requires Usable(rets) && IsPreamble(pre, md, ArchivesOf(rets)) && |pre| <= |b| && b[..|pre|] == pre
    requires IsLongest(rets, md.maxRetention)
    ensures HasHeader(b, rets, md.aggregation, md.xff)
  {
    HeaderFields(pre, md, ArchivesOf(rets));
    PrefixField(b, pre, 0);
    PrefixField(b, pre, 4);
    PrefixField(b, pre, 8);
    PrefixField(b, pre, 12);
  }

  lemma NewFileRecord(b: Bytes, pre: Bytes, md: Metadata, rets: seq<Retention>, k: int)
    requires Usable(rets) && IsPreamble(pre, md, ArchivesOf(rets)) && |pre| <= |b| && b[..|pre|] == pre
    requires 0 <= k < |rets|
    ensures HasRecord(b, rets, k)
  {
    RecordFields(pre, md, ArchivesOf(rets), k);
    PrefixField(b, pre, 16 + 12 * k);
    PrefixField(b, pre, 20 + 12 * k);
    PrefixField(b, pre, 24 + 12 * k);
    PointsAreWholePeriods(rets[k]);
  }

  /** The bytes of a new file, field by field. */
  lemma NewFileFields(md: Metadata, rets: seq<Retention>)
    requires Usable(rets) && rets != [] && FileSize(rets) < MAX_FILE && md.archiveCount == |rets|
    requires LaidOut(ArchivesOf(rets), FileSize(rets)) && IsLongest(rets, md.maxRetention)
    ensures HasHeader(ImageOf(md, rets), rets, md.aggregation, md.xff)
    ensures forall k :: 0 <= k < |rets| ==> HasRecord(ImageOf(md, rets), rets, k)
  {
    var b, pre := ImageOf(md, rets), PreambleOf(md, ArchivesOf(rets));
    PreambleRoundTrip(md, ArchivesOf(rets));
    assert b[..|pre|] == pre;
    NewFileHeader(b, pre, md, rets);
    forall k | 0 <= k < |rets| ensures HasRecord(b, rets, k) {
      NewFileRecord(b, pre, md, rets, k);
    }
  }

  /** Twelve bytes written over slot `j` of archive `k` change that slot and nothing else. */
  lemma SlotWritten(b: Bytes, preamble: Bytes, archives: seq<Archive>, rings: seq<seq<Point<int>>>, k: int, j: int, s: Bytes)
    requires Holds(b, preamble, archives, rings) && 0 <= k < |archives| && 0 <= j < archives[k].points && |s| == POINT_SIZE
    ensures archives[k].offset + j * POINT_SIZE + POINT_SIZE <= |b|
    ensures Holds(Splice(b, archives[k].offset + j * POINT_SIZE, s), preamble, archives,
                  rings[k := rings[k][j := DecodePoint(s)]])
  {
    InsideFile(archives, |b|, k);
    SpliceOutside(b, archives[k].offset + j * POINT_SIZE, s, 0, |preamble|);
    SpliceRings(b, archives, k, j, s);
  }

  /** The byte offset a point of timestamp `t` is written to, on a slot or off. */
  ghost function PointOffset(ring: seq<Point<int>>, a: Archive, t: int): int
    requires Sound(a) && |ring| == a.points
  {
    a.offset + if ring[0].timestamp == 0 then 0 else ByteDistance(a, ring[0].timestamp, t)
  }

  /** A write on a slot stays inside the file. */
  lemma WriteInside(b: Bytes, preamble: Bytes, archives: seq<Archive>, rings: seq<seq<Point<int>>>, k: int, t: int)
    requires Holds(b, preamble, archives, rings) && 0 <= k < |archives| && OnSlot(rings[k], archives[k], t)
    ensures PointOffset(rings[k], archives[k], t) == archives[k].offset + WriteSlot(rings[k], archives[k], t) * POINT_SIZE
    ensures PointOffset(rings[k], archives[k], t) + POINT_SIZE <= |b|
  {
    InsideFile(archives, |b|, k);
  }

  /** On a slot, the bytes of a point written there are one ring write. */
  lemma PointWritten(b: Bytes, preamble: Bytes, archives: seq<Archive>, rings: seq<seq<Point<int>>>, k: int, p: FilePoint)
    requires Holds(b, preamble, archives, rings) && 0 <= k < |archives| && OnSlot(rings[k], archives[k], p.timestamp)
    ensures PointOffset(rings[k], archives[k], p.timestamp) + POINT_SIZE <= |b|
    ensures Holds(Splice(b, PointOffset(rings[k], archives[k], p.timestamp), EncodePoint(p)), preamble, archives,
                  rings[k := Ring.WritePoint(rings[k], archives[k], p)])
  {
    WriteInside(b, preamble, archives, rings, k, p.timestamp);
    PointRoundTrip(p);
    SlotWritten(b, preamble, archives, rings, k, WriteSlot(rings[k], archives[k], p.timestamp), EncodePoint(p));
  }

  /** What stands before the written position stays. */
  lemma OverwriteKeeps(b: Bytes, pre: Bytes, at: int, s: Bytes)
    requires |pre| <= at <= |b| && b[..|pre|] == pre
    ensures Overwrite(b, at, s)[..|pre|] == pre
  {
    if at + |s| <= |b| {
      SpliceOutside(b, at, s, 0, |pre|);
    } else {
      assert b[..at][..|pre|] == b[..|pre|];
    }
  }

  /** A byte that differs between two states of a file lies in a slot whose point differs. */
  lemma ChangedByte(b: Bytes, b': Bytes, preamble: Bytes, archives: seq<Archive>,
                    rings: seq<seq<Point<int>>>, rings': seq<seq<Point<int>>>, i: int) returns (k: int, j: int)
    requires Holds(b, preamble, archives, rings) && Holds(b', preamble, archives, rings')
    requires 0 <= i < EndOf(archives) && b[i] != b'[i]
    ensures 0 <= k < |archives| && 0 <= j < archives[k].points && rings[k][j] != rings'[k][j]
    ensures archives[k].offset + j * POINT_SIZE <= i < archives[k].offset + j * POINT_SIZE + POINT_SIZE
  {
    assert forall m :: 0 <= m < |preamble| ==> b[m] == preamble[m] == b'[m];
    k := ArchiveAt(archives, |b|, i);
    j := (i - archives[k].offset) / POINT_SIZE;
    InsideFile(archives, |b|, k);
    InsideFile(archives, |b'|, k);
    ChangedSlot(b, b', archives[k], j, i);
  }

  /** Slots with different bytes hold different points. */
  lemma ChangedSlot(b: Bytes, b': Bytes, a: Archive, j: int, i: int)
    requires Sound(a) && a.offset + Size(a) <= |b| && a.offset + Size(a) <= |b'| && 0 <= j < a.points
    requires a.offset + j * POINT_SIZE <= i < a.offset + j * POINT_SIZE + POINT_SIZE && b[i] != b'[i]
    ensures RingAt(b, a)[j] != RingAt(b', a)[j]
  {
    var at := a.offset + j * POINT_SIZE;
    PointBytesRoundTrip(b[at..at + POINT_SIZE]);
    PointBytesRoundTrip(b'[at..at + POINT_SIZE]);
    assert b[at..at + POINT_SIZE][i - at] != b'[at..at + POINT_SIZE][i - at];
  }

  /** The archive that byte `i` lies in. */
  lemma ArchiveAt(archives: seq<Archive>, size: int, i: int) returns (k: int)
    requires LaidOut(archives, size) && archives[0].offset <= i < EndOf(archives)
    ensures 0 <= k < |archives| && archives[k].offset <= i < archives[k].offset + Size(archives[k])
  {
    k := 0;
    while archives[k].offset + Size(archives[k]) <= i
      invariant 0 <= k < |archives| && archives[k].offset <= i
      decreases |archives| - k
    {
      k := k + 1;
    }
  }

  /**
   * Write framing: a byte that a whole call changes lies in the slot of the
   * call's timestamp in some archive; header, records and all other slots keep
   * theirs.
   */
  lemma CallFrame(b: Bytes, b': Bytes, preamble: Bytes, archives: seq<Archive>, rings: seq<seq<Point<int>>>,
                  policy: Engine.Policy<int>, p: Point<int>, i: int) returns (k: int)
    requires Engine.Levels(archives) && Holds(b, preamble, archives, rings) && Engine.Shaped(archives, rings)
    requires Engine.Accessible(policy, archives, rings, p)
    requires Holds(b', preamble, archives, Engine.WriteAligned(policy, archives, rings, p))
    requires 0 <= i < EndOf(archives) && b[i] != b'[i]
    ensures 0 <= k < |archives| && (0 < k ==> p.timestamp % archives[k].step == 0)
    ensures var at := archives[k].offset + WriteSlot(rings[k], archives[k], p.timestamp) * POINT_SIZE;
            at <= i < at + POINT_SIZE
  {
    var j;
    k, j := ChangedByte(b, b', preamble, archives, rings, Engine.WriteAligned(policy, archives, rings, p), i);
    Engine.WriteFrame(policy, archives, rings, p, k);
  }

  /** An open whisper file: its bytes and the file position. */
  class OpenFile {
    var bytes: Bytes
    var pos: nat
    ghost const metadata: Metadata
    ghost const archives: seq<Archive>
    /** The bytes before the first archive; no operation on an open file changes them. */
    ghost const preamble: Bytes

    /** The archives' contents, slot by slot. */
    ghost var rings: seq<seq<Point<int>>>

    ghost predicate Valid()
      reads this
    {
      IsPreamble(preamble, metadata, archives) && Holds(bytes, preamble, archives, rings)
    }

    /** `whisper_create_file`: header, records and empty archives, written one after the other. */
    constructor Create(rets: seq<Retention>, aggregation: Word32, xff: Word32)
      requires Usable(rets) && 0 < |rets| < U32 && FileSize(rets) < MAX_FILE
      requires forall k :: 0 <= k < |rets| ==> rets[k].toStore < U32
      ensures Valid() && archives == ArchivesOf(rets) && |bytes| == FileSize(rets)
      ensures metadata.aggregation == aggregation && metadata.xff == xff && metadata.archiveCount == |rets|
      ensures IsLongest(rets, metadata.maxRetention)
      ensures forall k, j :: 0 <= k < |archives| && 0 <= j < archives[k].points ==> rings[k][j].timestamp == 0
      ensures HasHeader(bytes, rets, aggregation, xff)
      ensures forall k :: 0 <= k < |rets| ==> HasRecord(bytes, rets, k)
    {
      var longest := LongestRetention(rets);
      var md := Metadata(aggregation, longest, xff, |rets|);
      SchemaIsLaidOut(rets);
      NewFile(md, rets);
      metadata := md;
      archives := ArchivesOf(rets);
      preamble := PreambleOf(md, ArchivesOf(rets));
      bytes := EncodeMetadata(md);
      pos := HEADER_SIZE;
      rings := [];
      new;
      AppendRecords(rets);
      AppendRegions(rets);
      assert bytes == ImageOf(metadata, rets);
      rings := RingsAt(ImageOf(metadata, rets), archives);
      NewFileFields(metadata, rets);
    }

    /** A write at the end of the file. */
    method Append(s: Bytes)
      requires pos == |bytes|
      modifies this`bytes, this`pos
      ensures bytes == old(bytes) + s && pos == |bytes|
    {
      bytes := bytes + s;
      pos := pos + |s|;
    }

    method AppendRecords(rets: seq<Retention>)
      requires Usable(rets) && FileSize(rets) < U32 && pos == |bytes|
      requires forall k :: 0 <= k < |rets| ==> Encodable(ArchivesOf(rets)[k])
      modifies this`bytes, this`pos
      ensures bytes == old(bytes) + RecordsOf(ArchivesOf(rets)) && pos == |bytes|
    {
      ghost var all := ArchivesOf(rets);
      for k := 0 to |rets|
        invariant bytes == old(bytes) + RecordsOf(all[..k]) && pos == |bytes|
      {
        var offset := ArchiveOffset(rets, k);
        var a := Archive(offset, rets[k].perPoint, rets[k].toStore / rets[k].perPoint);
        assert a == all[k];
        assert all[..k + 1][..k] == all[..k];
        Append(EncodeRecord(a));
      }
      assert all[..|rets|] == all;
    }

    method AppendRegions(rets: seq<Retention>)
      requires Usable(rets) && pos == |bytes|
      modifies this`bytes, this`pos
      ensures bytes == old(bytes) + Zeros(RegionBytes(rets))
    {
      for k := 0 to |rets|
        invariant bytes == old(bytes) + Zeros(RegionBytes(rets[..k])) && pos == |bytes|
      {
        PointsPositive(rets[k]);
        assert rets[..k + 1][..k] == rets[..k];
        var size := rets[k].toStore / rets[k].perPoint * POINT_SIZE;
        assert Zeros(RegionBytes(rets[..k])) + Zeros(size) == Zeros(RegionBytes(rets[..k + 1]));
        Append(Zeros(size));
      }
      assert rets[..|rets|] == rets;
    }

    // System calls on a file that is long enough for them.

    method Seek(offset: int)
      requires 0 <= offset
      modifies this`pos
      ensures pos == offset
    {
      pos := offset;
    }

    method Read(n: int) returns (s: Bytes)
      requires 0 <= n && pos + n <= |bytes|
      modifies this`pos
      ensures pos == old(pos) + n
      ensures s == bytes[old(pos)..old(pos) + n]
    {
      s := bytes[pos..pos + n];
      pos := pos + n;
    }

    method ReadInto(buf: array<Byte>, at: int, n: int)
      requires 0 <= at && 0 <= n && at + n <= buf.Length && pos + n <= |bytes|
      modifies this`pos, buf
      ensures pos == old(pos) + n
      ensures buf[..] == Splice(old(buf[..]), at, bytes[old(pos)..old(pos) + n])
    {
      for i := 0 to n
        modifies buf
        invariant forall m :: 0 <= m < buf.Length ==>
                    buf[m] == if at <= m < at + i then bytes[pos + m - at] else old(buf[m])
      {
        buf[at + i] := bytes[pos + i];
      }
      pos := pos + n;
    }

    method Write(s: Bytes)
      requires pos <= |bytes|
      modifies this`pos, this`bytes
      ensures pos == old(pos) + |s|
      ensures bytes == Overwrite(old(bytes), old(pos), s)
    {
      bytes := Overwrite(bytes, pos, s);
      pos := pos + |s|;
    }

    // Reading structures.

    method ReadMetadata() returns (md: Metadata)
      requires Valid()
      modifies this`pos
      ensures md == metadata
    {
      Seek(0);
      var s := Read(HEADER_SIZE);
      assert s == preamble[..HEADER_SIZE];
      md := DecodeMetadata(s);
    }

    method ReadArchiveInfo(id: int) returns (a: Archive)
      requires Valid() && 0 <= id < |archives|
      modifies this`pos
      ensures a == archives[id]
    {
      var at := HEADER_SIZE + id * RECORD_SIZE;
      assert RecordAt(preamble, id) == archives[id];
      PrefixSlice(bytes, preamble, at, at + RECORD_SIZE);
      Seek(at);
      var s := Read(RECORD_SIZE);
      a := DecodeRecord(s);
    }

    /** Two reads: the timestamp, then the value. */
    method ReadArchivePoint() returns (p: FilePoint)
      requires pos + POINT_SIZE <= |bytes|
      modifies this`pos
      ensures pos == old(pos) + POINT_SIZE
      ensures p == PointAt(bytes, old(pos))
    {
      CellHalves(bytes, pos);
      var t := Read(4);
      var v := Read(8);
      p := Point(Word32Of(t), Word64Of(v));
    }

    /** The point in slot 0 of archive `a`, number `k`. */
    method ReadFirst(ghost k: int, a: Archive) returns (first: FilePoint)
      requires Valid() && 0 <= k < |archives| && a == archives[k]
      modifies this`pos
      ensures first == rings[k][0]
    {
      InsideFile(archives, |bytes|, k);
      Seek(a.offset);
      first := ReadArchivePoint();
      assert rings[k] == RingAt(bytes, a);
    }

    /** The byte offset `whisper_write_point` computes for timestamp `t` from the point it finds in slot 0, on a slot or off. */
    method WriteOffset(ghost k: int, a: Archive, t: Word32) returns (offset: int)
      requires Valid() && 0 <= k < |archives| && a == archives[k]
      modifies this`pos
      ensures offset == PointOffset(rings[k], a, t) && a.offset <= offset < a.offset + Size(a)
      ensures OnSlot(rings[k], a, t) <==> (offset - a.offset) % POINT_SIZE == 0
      ensures OnSlot(rings[k], a, t) ==> offset == a.offset + WriteSlot(rings[k], a, t) * POINT_SIZE
    {
      var first := ReadFirst(k, a);
      if first.timestamp == 0 {
        offset := a.offset;
      } else {
        offset := a.offset + Mul32(Sub32(t, first.timestamp) / a.step, POINT_SIZE) % Size(a);
      }
    }

    /** A write anywhere in the archives: the preamble stays, and the rings are what the bytes then decode to. */
    method WriteInArchives(offset: int, s: Bytes)
      requires Valid() && |preamble| <= offset <= |bytes|
      modifies this
      ensures Valid() && bytes == Overwrite(old(bytes), offset, s)
    {
      OverwriteKeeps(bytes, preamble, offset, s);
      Seek(offset);
      Write(s);
      rings := RingsAt(bytes, archives);
    }

    /**
     * `whisper_write_point`: the bytes of `p` go to the computed offset in archive
     * `a`, number `k`; if that is a slot boundary, the slot of `p.timestamp` takes `p`.
     */
    method WritePoint(ghost k: int, a: Archive, p: FilePoint, monitor: Monitoring.Counter) returns (onSlot: bool)
      requires Valid() && 0 <= k < |archives| && a == archives[k] && monitor.Valid()
      modifies this, monitor
      ensures Valid() && a.offset <= PointOffset(old(rings)[k], a, p.timestamp) <= |old(bytes)|
      ensures bytes == Overwrite(old(bytes), PointOffset(old(rings)[k], a, p.timestamp), EncodePoint(p))
      ensures onSlot == OnSlot(old(rings)[k], a, p.timestamp)
      ensures onSlot ==> rings == old(rings)[k := Ring.WritePoint(old(rings)[k], a, p)]
      ensures Counted(monitor, old(monitor.pending), old(monitor.settled), old(monitor.reported), 1)
    {
      var offset := WriteOffset(k, a, p.timestamp);
      InsideFile(archives, |bytes|, k);
      onSlot := (offset - a.offset) % POINT_SIZE == 0;
      ghost var before, was := bytes, rings;
      WriteInArchives(offset, EncodePoint(p));
      if onSlot {
        PointWritten(before, preamble, archives, was, k, p);
      }
      monitor.CountWrite();
    }

    /** One read up to `end`, or one up to the archive's end followed by one from its start. */
    method FillBuffer(buf: array<Byte>, hi: Archive, start: int, end: int)
      requires Sound(hi) && hi.offset + Size(hi) <= |bytes| && buf.Length == Size(hi)
      requires hi.offset <= start <= hi.offset + Size(hi) && 0 <= end < Size(hi)
      requires !(start < end) && end <= hi.offset ==> hi.offset - end <= start - hi.offset
      modifies this`pos, buf
      ensures start < end ==> buf[..] == Splice(old(buf[..]), 0, bytes[start..end])
      ensures !(start < end) ==>
                var rest := hi.offset + Size(hi) - start;
                buf[..] == Splice(Splice(old(buf[..]), 0, bytes[start..start + rest]), rest,
                                  if end <= hi.offset then bytes[hi.offset..hi.offset + (hi.offset - end)] else [])
    {
      Seek(start);
      if start < end {
        ReadInto(buf, 0, end - start);
      } else {
        var length := hi.offset + Size(hi) - start;
        ReadInto(buf, 0, length);
        Seek(hi.offset);
        if end <= hi.offset {
          ReadInto(buf, length, hi.offset - end);
        } else {
          SpliceNothing(buf[..], length);
        }
      }
    }

    /**
     * The reads of `whisper_write_propagate` into a zeroed buffer of the archive's
     * size.  If they would go past it nothing is read: the source overruns its heap.
     */
    method ReadWindow(hi: Archive, start: int, n: int, ghost j: int) returns (fits: bool, buf: array<Byte>)
      requires Sound(hi) && hi.offset + Size(hi) <= |bytes| && 0 <= j < hi.points && 0 < n <= hi.points
      requires start == ReadFrom(hi, j)
      modifies this`pos
      ensures fresh(buf) && buf.Length == Size(hi)
      ensures fits == Fits(hi, j, n)
      ensures fits ==> HasCells(buf[..], bytes, hi, j, n)
    {
      buf := new Byte[Size(hi)](_ => 0);
      assert buf[..] == seq(Size(hi), _ => 0);
      ReadLengths(hi, j, n);
      var end := (start + n * POINT_SIZE) % Size(hi);
      fits := start < end || hi.offset < end || hi.offset - end <= start - hi.offset;
      if fits {
        FillBuffer(buf, hi, start, end);
        ghost var f, g := FirstRead(hi, j, n) * POINT_SIZE, SecondRead(hi, j, n) * POINT_SIZE;
        SpliceNothing(buf[..], f);
        FilledHasCells(buf[..], bytes, hi, j, n, bytes[start..start + f], bytes[hi.offset..hi.offset + g]);
      }
    }

    /** The gathering loop: values of the cells that carry the expected timestamps. */
    method GatherValues(buf: array<Byte>, start: Word32, step: int, n: int) returns (values: seq<int>)
      requires 0 <= n && n * POINT_SIZE <= buf.Length
      ensures values == Gather(Decoded(buf[..], n), start, step)
    {
      values := [];
      var cur := start;
      ghost var cells := Decoded(buf[..], n);
      for i := 0 to n
        invariant cur == Nth(start, step, i)
        invariant values == Gather(cells[..i], start, step)
      {
        var cell := buf[i * POINT_SIZE..i * POINT_SIZE + POINT_SIZE];
        assert cell == Cell(buf[..], i);
        var p := DecodePoint(cell);
        assert cells[..i + 1] == cells[..i] + [Some(p)];
        GatherSnoc(cells[..i], start, step, Some(p));
        if p.timestamp == cur {
          values := values + [p.value];
        }
        cur := Add32(cur, step);
      }
      assert cells[..n] == cells;
    }

    /** The byte offset of the first point of the window that `t` closes, on a slot or off. */
    method WindowOffset(ghost k: int, hi: Archive, lo: Archive, t: Word32) returns (from: int)
      requires Valid() && 0 <= k < |archives| && hi == archives[k] && Covers(hi, lo)
      modifies this`pos
      ensures from == hi.offset + ByteDistance(hi, rings[k][0].timestamp, Start(hi, lo, t))
    {
      var first := ReadFirst(k, hi);
      from := hi.offset + Mul32(Sub32(Start(hi, lo, t), first.timestamp) / hi.step, POINT_SIZE) % Size(hi);
    }

    /** The aggregator's input: the known values of the window that `t` closes; none if it is not read well. */
    method ReadKnown(ghost k: int, hi: Archive, lo: Archive, t: Word32) returns (known: Option<seq<int>>)
      requires Valid() && 0 <= k < |archives| && hi == archives[k] && Covers(hi, lo) && lo.step <= t
      modifies this`pos
      ensures known == if ReadFits(rings[k], hi, lo, t) then Some(Known(rings[k], hi, lo, t)) else None
    {
      var from := WindowOffset(k, hi, lo, t);
      if (from - hi.offset) % POINT_SIZE != 0 {
        return None;
      }
      InsideFile(archives, |bytes|, k);
      assert rings[k] == RingAt(bytes, hi);
      ghost var j := Slot(hi, rings[k][0].timestamp, Start(hi, lo, t));
      var fits, buf := ReadWindow(hi, from, Count(hi, lo), j);
      if !fits {
        return None;
      }
      var values := GatherValues(buf, Start(hi, lo, t), hi.step, Count(hi, lo));
      BufferYieldsKnown(bytes, hi, lo, t, buf[..]);
      return Some(values);
    }

    /**
     * `whisper_write_propagate` from archive `hi` to archive `lo`, number `k`.  If
     * it does not keep to slots and buffer the source has torn a point or left
     * its heap buffer, and the model follows it no further.
     */
    method Propagate(fpu: Fpu, ghost k: int, md: Metadata, hi: Archive, lo: Archive, t: Word32, monitor: Monitoring.Counter)
      returns (good: bool)
      requires Valid() && 1 <= k < |archives| && hi == archives[k - 1] && lo == archives[k] && md == metadata
      requires Covers(hi, lo) && lo.step <= t && monitor.Valid()
      modifies this, monitor
      ensures Valid() && monitor.Valid()
      ensures good == Engine.Good(PolicyOf(fpu, md), hi, lo, old(rings)[k - 1], old(rings)[k], t)
      ensures good ==>
                rings == old(rings)[k := Engine.Propagate(PolicyOf(fpu, md), hi, lo, old(rings)[k - 1], old(rings)[k], t)]
      ensures good ==> rings[k] == Offered(fpu, md, hi, lo, old(rings)[k - 1], old(rings)[k], t)
      ensures good ==> Counted(monitor, old(monitor.pending), old(monitor.settled), old(monitor.reported),
                               Engine.OfferWrites(PolicyOf(fpu, md), hi, lo, old(rings)[k - 1], t))
    {
      var read := ReadKnown(k - 1, hi, lo, t);
      if read.None? {
        return false;
      }
      var known := read.value;
      PropagateIs(fpu, md, hi, lo, rings[k - 1], rings[k], t);
      if (|known| / Count(hi, lo)) as real >= fpu.single(md.xff) {
        good := WritePoint(k, lo, Point(t, fpu.aggregate(md.aggregation, known)), monitor);
      } else {
        assert rings[k := rings[k]] == rings;
        good := true;
      }
    }

    /**
     * One round of the propagation loop: archive number `id` is read, and
     * propagated to unless that ends the loop.
     */
    method Round(fpu: Fpu, id: int, md: Metadata, higher: Archive, t: Word32, monitor: Monitoring.Counter,
                 ghost target: seq<seq<Point<int>>>, ghost total: int, ghost all: bool)
      returns (lower: Archive, endLoop: bool, good: bool)
      requires Valid() && Engine.Levels(archives) && Engine.Shaped(archives, rings) && 1 <= id < |archives|
      requires md == metadata && higher == archives[id - 1] && 0 < t
      requires Remaining(PolicyOf(fpu, md), archives, rings, id, t, monitor.pending, target, total, all)
      requires monitor.Valid()
      modifies this, monitor
      ensures Valid() && Engine.Shaped(archives, rings) && lower == archives[id] && monitor.Valid()
      ensures good ==> monitor.settled == old(monitor.settled) && monitor.reported == old(monitor.reported)
      ensures good && !endLoop ==>
                Remaining(PolicyOf(fpu, md), archives, rings, id + 1, t, monitor.pending, target, total, all)
      ensures good && endLoop ==> rings == target && monitor.pending == total && all
      ensures !good ==> !all
    {
      RemainingStep(PolicyOf(fpu, md), archives, rings, id, t, monitor.pending, target, total, all);
      lower := ReadArchiveInfo(id);
      if t % lower.step == 0 {
        MultipleAtLeast(t, lower.step);
        good := Propagate(fpu, id, md, higher, lower, t, monitor);
        endLoop := false;
      } else {
        endLoop, good := true, true;
      }
    }

    /** The propagation loop of `whisper_write_value`, as far as it is good. */
    method PropagateAll(fpu: Fpu, md: Metadata, first: Archive, t: Word32, monitor: Monitoring.Counter) returns (good: bool)
      requires Valid() && Engine.Levels(archives) && Engine.Shaped(archives, rings)
      requires md == metadata && first == archives[0] && 0 < t && monitor.Valid()
      modifies this, monitor
      ensures Valid() && Engine.Shaped(archives, rings) && monitor.Valid()
      ensures good == Engine.AccessFrom(PolicyOf(fpu, md), archives, old(rings), 1, t)
      ensures good ==> rings == Engine.PropagateFrom(PolicyOf(fpu, md), archives, old(rings), 1, t)
      ensures good ==> Counted(monitor, old(monitor.pending), old(monitor.settled), old(monitor.reported),
                               Engine.WritesFrom(PolicyOf(fpu, md), archives, old(rings), 1, t))
    {
      ghost var target := Engine.PropagateFrom(PolicyOf(fpu, md), archives, rings, 1, t);
      ghost var total := monitor.pending + Engine.WritesFrom(PolicyOf(fpu, md), archives, rings, 1, t);
      ghost var all := Engine.AccessFrom(PolicyOf(fpu, md), archives, rings, 1, t);
      var higher, id, endLoop := first, 1, false;
      good := true;
      while good && !endLoop && id < md.archiveCount
        invariant Valid() && Engine.Shaped(archives, rings) && 1 <= id <= |archives| && higher == archives[id - 1]
        invariant monitor.Valid()
        invariant good ==> monitor.settled == old(monitor.settled) && monitor.reported == old(monitor.reported)
        invariant good && !endLoop ==>
                    Remaining(PolicyOf(fpu, md), archives, rings, id, t, monitor.pending, target, total, all)
        invariant good && endLoop ==> rings == target && monitor.pending == total && all
        invariant !good ==> !all
        decreases |archives| - id
      {
        higher, endLoop, good := Round(fpu, id, md, higher, t, monitor, target, total, all);
        id := id + 1;
      }
    }

    /**
     * `whisper_write_value` on an open file.  It is good if every access is; if
     * not, the model follows it up to the first access that is not.
     */
    method WriteValue(fpu: Fpu, timestamp: Word32, value: Word64, monitor: Monitoring.Counter) returns (good: bool)
      requires Valid() && Engine.Levels(archives) && Engine.Shaped(archives, rings) && archives[0].step <= timestamp
      requires monitor.Valid()
      modifies this, monitor
      ensures Valid() && Engine.Shaped(archives, rings) && monitor.Valid()
      ensures good == Engine.Accessible(PolicyOf(fpu, metadata), archives, old(rings),
                                        Point(Engine.Align(timestamp, archives[0].step), value))
      ensures good ==> rings == Engine.WriteValue(PolicyOf(fpu, metadata), archives, old(rings), timestamp, value)
      ensures good ==> forall a :: a % archives[0].step == 0 && a <= timestamp < a + archives[0].step ==>
                         rings[0] == Ring.WritePoint(old(rings)[0], archives[0], Point(a, value))
      ensures good ==> Counted(monitor, old(monitor.pending), old(monitor.settled), old(monitor.reported),
                               Engine.SlotWrites(PolicyOf(fpu, metadata), archives, old(rings), timestamp, value))
    {
      var md := ReadMetadata();
      var first := ReadArchiveInfo(0);
      RoundDown(timestamp, first.step);
      var t: Word32 := timestamp - timestamp % first.step;
      var p: FilePoint := Point(t, value);
      CallIs(PolicyOf(fpu, md), archives, rings, timestamp, t, value);
      FinestTakes(PolicyOf(fpu, md), archives, rings, timestamp, value);
      good := WritePoint(0, first, p, monitor);
      if good {
        good := PropagateAll(fpu, md, first, t, monitor);
      }
    }
  }

  /** The finest archive takes the value at the multiple of its step whose period the timestamp lies in. */
  lemma FinestTakes(policy: Engine.Policy<int>, archives: seq<Archive>, rings: seq<seq<Point<int>>>, timestamp: int, v: int)
    requires Engine.Levels(archives) && Engine.Shaped(archives, rings)
    ensures forall a :: a % archives[0].step == 0 && a <= timestamp < a + archives[0].step ==>
              Engine.WriteValue(policy, archives, rings, timestamp, v)[0]
              == Ring.WritePoint(rings[0], archives[0], Point(a, v))
  {
    forall a | a % archives[0].step == 0 && a <= timestamp < a + archives[0].step
      ensures Engine.WriteValue(policy, archives, rings, timestamp, v)[0]
           == Ring.WritePoint(rings[0], archives[0], Point(a, v))
    {
      Engine.AlignIs(timestamp, archives[0].step, a);
      var p := Point(a, v);
      var first := rings[0 := Ring.WritePoint(rings[0], archives[0], p)];
      Engine.PropagateFromFrame(policy, archives, first, 1, a, 0);
    }
  }

  /** A call is its first write and the loop after it. */
  lemma {:induction false} CallIs(policy: Engine.Policy<int>, archives: seq<Archive>, rings: seq<seq<Point<int>>>, timestamp: int, t: int, v: int)
    requires Engine.Levels(archives) && Engine.Shaped(archives, rings) && t == Engine.Align(timestamp, archives[0].step)
    ensures var first := rings[0 := Ring.WritePoint(rings[0], archives[0], Point(t, v))];
            && Engine.WriteValue(policy, archives, rings, timestamp, v) == Engine.PropagateFrom(policy, archives, first, 1, t)
            && Engine.SlotWrites(policy, archives, rings, timestamp, v) == 1 + Engine.WritesFrom(policy, archives, first, 1, t)
            && (Engine.Accessible(policy, archives, rings, Point(t, v)) <==>
                OnSlot(rings[0], archives[0], t) && Engine.AccessFrom(policy, archives, first, 1, t))
  {
    Engine.AccessAfterFirst(policy, archives, rings, Point(t, v));
  }

  /**
   * The coarse ring with the machine's arithmetic put in: the file's own factor
   * decides whether it takes the file's own aggregate of the known values.
   */
  ghost function Offered(fpu: Fpu, md: Metadata, hi: Archive, lo: Archive, fine: seq<Point<int>>, coarse: seq<Point<int>>,
                         t: int): seq<Point<int>>
    requires Covers(hi, lo) && |fine| == hi.points && |coarse| == lo.points
  {
    var known := Known(fine, hi, lo, t);
    if (|known| / Count(hi, lo)) as real >= fpu.single(md.xff)
    then Ring.WritePoint(coarse, lo, Point(t, fpu.aggregate(md.aggregation, known))) else coarse
  }

  lemma PropagateIs(fpu: Fpu, md: Metadata, hi: Archive, lo: Archive, fine: seq<Point<int>>, coarse: seq<Point<int>>, t: int)
    requires Covers(hi, lo) && |fine| == hi.points && |coarse| == lo.points
    ensures Engine.Propagate(PolicyOf(fpu, md), hi, lo, fine, coarse, t) == Offered(fpu, md, hi, lo, fine, coarse, t)
  {
  }

  /**
   * The loop stands before archive `k`: the accesses still to come are good
   * exactly if `all` were, and the rounds to come lead to the rings `target` and
   * to `total` slot writes.
   */
  ghost predicate Remaining(policy: Engine.Policy<int>, archives: seq<Archive>, rings: seq<seq<Point<int>>>,
                            k: int, t: int, writes: int, target: seq<seq<Point<int>>>, total: int, all: bool)
    requires Engine.Levels(archives) && Engine.Shaped(archives, rings) && 1 <= k <= |archives|
  {
    && (Engine.AccessFrom(policy, archives, rings, k, t) <==> all)
    && Engine.PropagateFrom(policy, archives, rings, k, t) == target
    && writes + Engine.WritesFrom(policy, archives, rings, k, t) == total
  }

  /** One round of the loop. */
  lemma RemainingStep(policy: Engine.Policy<int>, archives: seq<Archive>, rings: seq<seq<Point<int>>>,
                      k: int, t: int, writes: int, target: seq<seq<Point<int>>>, total: int, all: bool)
    requires Engine.Levels(archives) && Engine.Shaped(archives, rings) && 1 <= k < |archives|
    requires Remaining(policy, archives, rings, k, t, writes, target, total, all)
    ensures t % archives[k].step != 0 ==> rings == target && writes == total && all
    ensures t % archives[k].step == 0 ==>
              var hi, lo := archives[k - 1], archives[k];
              if Engine.Good(policy, hi, lo, rings[k - 1], rings[k], t)
              then Remaining(policy, archives, rings[k := Engine.Propagate(policy, hi, lo, rings[k - 1], rings[k], t)], k + 1, t,
                             writes + Engine.OfferWrites(policy, hi, lo, rings[k - 1], t), target, total, all)
              else !all
  {
    if t % archives[k].step == 0 {
      Engine.AccessStep(policy, archives, rings, k, t);
    }
  }

  /** The longest time to store of a schema. */
  ghost predicate IsLongest(rets: seq<Retention>, max: int) {
    && (forall k :: 0 <= k < |rets| ==> rets[k].toStore <= max)
    && (exists k :: 0 <= k < |rets| && rets[k].toStore == max)
  }

  method LongestRetention(rets: seq<Retention>) returns (max: int)
    requires Usable(rets) && rets != [] && forall k :: 0 <= k < |rets| ==> rets[k].toStore < U32
    ensures IsLongest(rets, max) && 0 <= max < U32
  {
    max := 0;
    for i := 0 to |rets|
      invariant 0 <= max < U32 && forall k :: 0 <= k < i ==> rets[k].toStore <= max
      invariant (i == 0 && max == 0) || exists k :: 0 <= k < i && rets[k].toStore == max
    {
      if rets[i].toStore > max {
        max := rets[i].toStore;
      }
    }
  }
}
