/** Structures in file bytes: encoding, decoding, and what one 12-byte write changes. */
module Image {
  import opened Words
  import opened Ring
  import opened Layout

  type Bytes = seq<Byte>

  /** The file header; the x-files factor is kept as its 32-bit pattern. */
  datatype Metadata = Metadata(aggregation: Word32, maxRetention: Word32, xff: Word32, archiveCount: Word32)

  function EncodeMetadata(md: Metadata): (s: Bytes)
    ensures |s| == HEADER_SIZE
  {
    Big32(md.aggregation) + Big32(md.maxRetention) + Big32(md.xff) + Big32(md.archiveCount)
  }

  function DecodeMetadata(s: Bytes): Metadata
    requires |s| == HEADER_SIZE
  {
    Metadata(Word32Of(s[..4]), Word32Of(s[4..8]), Word32Of(s[8..12]), Word32Of(s[12..]))
  }

  predicate Encodable(a: Archive) {
    0 <= a.offset < U32 && 0 <= a.step < U32 && 0 <= a.points < U32
  }

  function EncodeRecord(a: Archive): (s: Bytes)
    requires Encodable(a)
    ensures |s| == RECORD_SIZE
  {
    Big32(a.offset) + Big32(a.step) + Big32(a.points)
  }

  function DecodeRecord(s: Bytes): Archive
    requires |s| == RECORD_SIZE
  {
    Archive(Word32Of(s[..4]), Word32Of(s[4..8]), Word32Of(s[8..]))
  }

  /** A point as the file holds it: the value is a 64-bit pattern. */
  type FilePoint = p: Point<int> | 0 <= p.timestamp < U32 && 0 <= p.value < U64 witness Point(0, 0)

  /** The packed structure of a 4-byte timestamp and an 8-byte value. */
  function EncodePoint(p: FilePoint): (s: Bytes)
    ensures |s| == POINT_SIZE
  {
    Big32(p.timestamp) + Big64(p.value)
  }

  /** The timestamp from the first 4 bytes, the value from the next 8. */
  function DecodePoint(s: Bytes): FilePoint
    requires |s| == POINT_SIZE
  {
    Point(Word32Of(s[..4]), Word64Of(s[4..]))
  }

  lemma MetadataRoundTrip(md: Metadata)
    ensures DecodeMetadata(EncodeMetadata(md)) == md
  {
    var s := EncodeMetadata(md);
    assert s[..4] == Big32(md.aggregation) && s[4..8] == Big32(md.maxRetention);
    assert s[8..12] == Big32(md.xff) && s[12..] == Big32(md.archiveCount);
    Word32RoundTrip(md.aggregation);
    Word32RoundTrip(md.maxRetention);
    Word32RoundTrip(md.xff);
    Word32RoundTrip(md.archiveCount);
  }

  lemma RecordRoundTrip(a: Archive)
    requires Encodable(a)
    ensures DecodeRecord(EncodeRecord(a)) == a
  {
    var s := EncodeRecord(a);
    assert s[..4] == Big32(a.offset) && s[4..8] == Big32(a.step) && s[8..] == Big32(a.points);
    Word32RoundTrip(a.offset);
    Word32RoundTrip(a.step);
    Word32RoundTrip(a.points);
  }

  /** Points and their 12-byte images correspond one to one. */
  lemma PointRoundTrip(p: FilePoint)
    ensures DecodePoint(EncodePoint(p)) == p
  {
    var s := EncodePoint(p);
    assert s[..4] == Big32(p.timestamp) && s[4..] == Big64(p.value);
    Word32RoundTrip(p.timestamp);
    Word64RoundTrip(p.value);
  }

  lemma PointBytesRoundTrip(s: Bytes)
    requires |s| == POINT_SIZE
    ensures EncodePoint(DecodePoint(s)) == s
  {
    Bytes32RoundTrip(s[..4]);
    Bytes64RoundTrip(s[4..]);
    assert s == s[..4] + s[4..];
  }

  // Reading structures out of a file.

  function PointAt(b: Bytes, at: int): FilePoint
    requires 0 <= at && at + POINT_SIZE <= |b|
  {
    DecodePoint(b[at..at + POINT_SIZE])
  }

  function RingAt(b: Bytes, a: Archive): (ring: seq<Point<int>>)
    requires Sound(a) && a.offset + Size(a) <= |b|
    ensures |ring| == a.points
  {
    seq(a.points, j requires 0 <= j < a.points => PointAt(b, a.offset + j * POINT_SIZE))
  }

  function RecordAt(b: Bytes, k: int): Archive
    requires 0 <= k && HEADER_SIZE + (k + 1) * RECORD_SIZE <= |b|
  {
    DecodeRecord(b[HEADER_SIZE + k * RECORD_SIZE..HEADER_SIZE + (k + 1) * RECORD_SIZE])
  }

  /** Where the last archive ends. */
  function EndOf(archives: seq<Archive>): int
    requires archives != []
  {
    archives[|archives| - 1].offset + Size(archives[|archives| - 1])
  }

  /** The archives of a file lie end to end after the records, inside the file. */
  predicate LaidOut(archives: seq<Archive>, size: int) {
    && archives != []
    && (forall k :: 0 <= k < |archives| ==> Sound(archives[k]) && Encodable(archives[k]))
    && archives[0].offset == HEADER_SIZE + |archives| * RECORD_SIZE <= size
    && (forall k :: 1 <= k < |archives| ==> archives[k].offset == archives[k - 1].offset + Size(archives[k - 1]))
    && EndOf(archives) <= size
  }

  /** The bytes before the first archive: this header, then these archives' records. */
  ghost predicate IsPreamble(b: Bytes, md: Metadata, archives: seq<Archive>) {
    && |b| == HEADER_SIZE + |archives| * RECORD_SIZE
    && md.archiveCount == |archives|
    && DecodeMetadata(b[..HEADER_SIZE]) == md
    && (forall k :: 0 <= k < |archives| ==> RecordAt(b, k) == archives[k])
  }

  // Where the fields stand in a file.

  /** The 32-bit field at a position, most significant byte first. */
  function Field(b: Bytes, at: int): nat
    requires 0 <= at && at + 4 <= |b|
  {
    Positional(b[at..at + 4])
  }

  /** A header: aggregation type, longest retention, x-files factor and number of archives, in this order. */
  lemma HeaderFields(b: Bytes, md: Metadata, archives: seq<Archive>)
    requires IsPreamble(b, md, archives)
    ensures Field(b, 0) == md.aggregation && Field(b, 4) == md.maxRetention
    ensures Field(b, 8) == md.xff && Field(b, 12) == |archives|
  {
    var s := b[..HEADER_SIZE];
    assert b[0..4] == s[..4] && b[4..8] == s[4..8] && b[8..12] == s[8..12] && b[12..16] == s[12..];
    Word32IsPositional(s[..4]);
    Word32IsPositional(s[4..8]);
    Word32IsPositional(s[8..12]);
    Word32IsPositional(s[12..]);
  }

  /** An archive record: offset, seconds per point and number of points, in this order, twelve bytes per archive. */
  lemma RecordFields(b: Bytes, md: Metadata, archives: seq<Archive>, k: int)
    requires IsPreamble(b, md, archives) && 0 <= k < |archives|
    ensures Field(b, 16 + 12 * k) == archives[k].offset && Field(b, 20 + 12 * k) == archives[k].step
    ensures Field(b, 24 + 12 * k) == archives[k].points
  {
    var at := 16 + 12 * k;
    var s := b[at..at + 12];
    assert s == b[HEADER_SIZE + k * RECORD_SIZE..HEADER_SIZE + (k + 1) * RECORD_SIZE];
    assert b[at..at + 4] == s[..4] && b[at + 4..at + 8] == s[4..8] && b[at + 8..at + 12] == s[8..];
    Word32IsPositional(s[..4]);
    Word32IsPositional(s[4..8]);
    Word32IsPositional(s[8..]);
    assert RecordAt(b, k) == DecodeRecord(s);
  }

  /** A point: four bytes of timestamp, then eight of value. */
  lemma PointFields(p: FilePoint)
    ensures var s := EncodePoint(p);
            |s| == 12 && Positional(s[..4]) == p.timestamp && Positional(s[4..]) == p.value
  {
    var s := EncodePoint(p);
    assert s[..4] == Big32(p.timestamp) && s[4..] == Big64(p.value);
    Big32IsPositional(p.timestamp);
    Big64IsPositional(p.value);
  }

  lemma {:induction false} OffsetsOrdered(archives: seq<Archive>, size: int, i: int, j: int)
    requires LaidOut(archives, size) && 0 <= i <= j < |archives|
    ensures archives[0].offset <= archives[i].offset <= archives[j].offset
    ensures i < j ==> archives[i].offset + Size(archives[i]) <= archives[j].offset
    decreases j
  {
    if i < j {
      OffsetsOrdered(archives, size, i, j - 1);
    } else if i > 0 {
      OffsetsOrdered(archives, size, i - 1, j - 1);
    }
  }

  lemma InsideFile(archives: seq<Archive>, size: int, k: int)
    requires LaidOut(archives, size) && 0 <= k < |archives|
    ensures archives[0].offset <= archives[k].offset && archives[k].offset + Size(archives[k]) <= size
  {
    OffsetsOrdered(archives, size, k, |archives| - 1);
  }

  function RingsAt(b: Bytes, archives: seq<Archive>): (rings: seq<seq<Point<int>>>)
    requires LaidOut(archives, |b|)
    ensures |rings| == |archives|
    ensures forall k :: 0 <= k < |archives| ==> |rings[k]| == archives[k].points
  {
    seq(|archives|, k requires 0 <= k < |archives| =>
          InsideFile(archives, |b|, k);
          RingAt(b, archives[k]))
  }

  /** A write in place. */
  function Splice(b: Bytes, at: int, s: Bytes): (b': Bytes)
    requires 0 <= at && at + |s| <= |b|
    ensures |b'| == |b|
  {
    seq(|b|, i requires 0 <= i < |b| => if at <= i < at + |s| then s[i - at] else b[i])
  }

  /** A write at a position of a file, which it lengthens if it goes past the end. */
  function Overwrite(b: Bytes, at: int, s: Bytes): (b': Bytes)
    requires 0 <= at <= |b|
    ensures |b| <= |b'|
  {
    if at + |s| <= |b| then Splice(b, at, s) else b[..at] + s
  }

  lemma SpliceOutside(b: Bytes, at: int, s: Bytes, lo: int, hi: int)
    requires 0 <= at && at + |s| <= |b| && 0 <= lo <= hi <= |b| && (hi <= at || at + |s| <= lo)
    ensures Splice(b, at, s)[lo..hi] == b[lo..hi]
  {
  }

  lemma SpliceAt(b: Bytes, at: int, s: Bytes)
    requires 0 <= at && at + |s| <= |b|
    ensures Splice(b, at, s)[at..at + |s|] == s
  {
  }

  /** Writing a point in slot `j` of an archive changes that slot of its ring and nothing else of it. */
  lemma SpliceRing(b: Bytes, a: Archive, j: int, s: Bytes)
    requires Sound(a) && a.offset + Size(a) <= |b| && 0 <= j < a.points && |s| == POINT_SIZE
    ensures RingAt(Splice(b, a.offset + j * POINT_SIZE, s), a) == RingAt(b, a)[j := DecodePoint(s)]
  {
    var at := a.offset + j * POINT_SIZE;
    var b' := Splice(b, at, s);
    forall i | 0 <= i < a.points ensures RingAt(b', a)[i] == RingAt(b, a)[j := DecodePoint(s)][i] {
      var lo := a.offset + i * POINT_SIZE;
      if i == j {
        SpliceAt(b, at, s);
      } else {
        SpliceOutside(b, at, s, lo, lo + POINT_SIZE);
      }
    }
  }

  /**
   * A point written `r` bytes into slot `j` tears two slots: the first keeps its
   * first `r` bytes, so its timestamp if `r` is 4 or more, and the next one the
   * bytes from `r` on.
   */
  lemma OffSlotWriteTears(b: Bytes, a: Archive, j: int, r: int, s: Bytes)
    requires Sound(a) && a.offset + Size(a) <= |b| && 0 <= j && j + 1 < a.points && 0 < r < POINT_SIZE
    requires |s| == POINT_SIZE
    ensures var at := a.offset + j * POINT_SIZE;
            var b' := Splice(b, at + r, s);
            && b'[at..at + POINT_SIZE] == b[at..at + r] + s[..POINT_SIZE - r]
            && b'[at + POINT_SIZE..at + 2 * POINT_SIZE] == s[POINT_SIZE - r..] + b[at + POINT_SIZE + r..at + 2 * POINT_SIZE]
            && (4 <= r ==> RingAt(b', a)[j].timestamp == RingAt(b, a)[j].timestamp)
            && (forall i :: 0 <= i < a.points && i != j && i != j + 1 ==> RingAt(b', a)[i] == RingAt(b, a)[i])
  {
    var at := a.offset + j * POINT_SIZE;
    var b' := Splice(b, at + r, s);
    var first, second := b'[at..at + POINT_SIZE], b'[at + POINT_SIZE..at + 2 * POINT_SIZE];
    var torn, tail := b[at..at + r] + s[..POINT_SIZE - r], s[POINT_SIZE - r..] + b[at + POINT_SIZE + r..at + 2 * POINT_SIZE];
    forall i | 0 <= i < POINT_SIZE ensures first[i] == torn[i] && second[i] == tail[i] {
    }
    assert first == torn && second == tail;
    if 4 <= r {
      var was := b[at..at + POINT_SIZE];
      forall i | 0 <= i < 4 ensures first[..4][i] == was[..4][i] {
        assert first[i] == torn[i] == b[at + i];
      }
      assert first[..4] == was[..4];
    }
    OtherSlotsStay(b, a, j, r, s);
  }

  lemma OtherSlotsStay(b: Bytes, a: Archive, j: int, r: int, s: Bytes)
    requires Sound(a) && a.offset + Size(a) <= |b| && 0 <= j && j + 1 < a.points && 0 < r < POINT_SIZE
    requires |s| == POINT_SIZE
    ensures var b' := Splice(b, a.offset + j * POINT_SIZE + r, s);
            forall i :: 0 <= i < a.points && i != j && i != j + 1 ==> RingAt(b', a)[i] == RingAt(b, a)[i]
  {
    var at := a.offset + j * POINT_SIZE + r;
    forall i | 0 <= i < a.points && i != j && i != j + 1 ensures RingAt(Splice(b, at, s), a)[i] == RingAt(b, a)[i] {
      var lo := a.offset + i * POINT_SIZE;
      SpliceOutside(b, at, s, lo, lo + POINT_SIZE);
    }
  }

  lemma SpliceElsewhere(b: Bytes, at: int, s: Bytes, a: Archive)
    requires Sound(a) && a.offset + Size(a) <= |b| && 0 <= at && at + |s| <= |b|
    requires at + |s| <= a.offset || a.offset + Size(a) <= at
    ensures RingAt(Splice(b, at, s), a) == RingAt(b, a)
  {
    forall i | 0 <= i < a.points
      ensures RingAt(Splice(b, at, s), a)[i] == RingAt(b, a)[i]
    {
      var lo := a.offset + i * POINT_SIZE;
      SpliceOutside(b, at, s, lo, lo + POINT_SIZE);
    }
  }

  /** A point write inside one archive changes its slot and no other archive. */
  lemma SpliceRings(b: Bytes, archives: seq<Archive>, k: int, j: int, s: Bytes)
    requires LaidOut(archives, |b|) && 0 <= k < |archives| && 0 <= j < archives[k].points && |s| == POINT_SIZE
    requires archives[k].offset + Size(archives[k]) <= |b|
    ensures var b' := Splice(b, archives[k].offset + j * POINT_SIZE, s);
            RingsAt(b', archives) == RingsAt(b, archives)[k := RingsAt(b, archives)[k][j := DecodePoint(s)]]
  {
    var a, p := archives[k], DecodePoint(s);
    var at := a.offset + j * POINT_SIZE;
    var b' := Splice(b, at, s);
    forall i | 0 <= i < |archives|
      ensures RingsAt(b', archives)[i] == RingsAt(b, archives)[k := RingsAt(b, archives)[k][j := p]][i]
    {
      InsideFile(archives, |b|, i);
      if i == k {
        SpliceRing(b, a, j, s);
      } else {
        if i < k {
          OffsetsOrdered(archives, |b|, i, k);
        } else {
          OffsetsOrdered(archives, |b|, k, i);
        }
        SpliceElsewhere(b, at, s, archives[i]);
      }
    }
  }

  // A new file.

  function RecordsOf(archives: seq<Archive>): (s: Bytes)
    requires forall k :: 0 <= k < |archives| ==> Encodable(archives[k])
    ensures |s| == |archives| * RECORD_SIZE
  {
    if archives == [] then [] else RecordsOf(archives[..|archives| - 1]) + EncodeRecord(archives[|archives| - 1])
  }

  lemma {:induction false} RecordInRecords(archives: seq<Archive>, k: int)
    requires forall k :: 0 <= k < |archives| ==> Encodable(archives[k])
    requires 0 <= k < |archives|
    ensures RecordsOf(archives)[k * RECORD_SIZE..(k + 1) * RECORD_SIZE] == EncodeRecord(archives[k])
  {
    var before := archives[..|archives| - 1];
    var s := RecordsOf(archives);
    if k < |archives| - 1 {
      RecordInRecords(before, k);
      assert s[k * RECORD_SIZE..(k + 1) * RECORD_SIZE] == RecordsOf(before)[k * RECORD_SIZE..(k + 1) * RECORD_SIZE];
    }
  }

  function PreambleOf(md: Metadata, archives: seq<Archive>): (s: Bytes)
    requires forall k :: 0 <= k < |archives| ==> Encodable(archives[k])
    ensures |s| == HEADER_SIZE + |archives| * RECORD_SIZE
  {
    EncodeMetadata(md) + RecordsOf(archives)
  }

  /** Header and records read back at their positions as they were written. */
  lemma PreambleRoundTrip(md: Metadata, archives: seq<Archive>)
    requires forall k :: 0 <= k < |archives| ==> Encodable(archives[k])
    requires md.archiveCount == |archives|
    ensures IsPreamble(PreambleOf(md, archives), md, archives)
  {
    var b := PreambleOf(md, archives);
    assert b[..HEADER_SIZE] == EncodeMetadata(md);
    MetadataRoundTrip(md);
    forall k | 0 <= k < |archives| ensures RecordAt(b, k) == archives[k] {
      RecordInRecords(archives, k);
      assert b[HEADER_SIZE + k * RECORD_SIZE..HEADER_SIZE + (k + 1) * RECORD_SIZE]
          == RecordsOf(archives)[k * RECORD_SIZE..(k + 1) * RECORD_SIZE];
      RecordRoundTrip(archives[k]);
    }
  }

  /** The archives of a usable schema lie end to end in a file of the computed size. */
  lemma SchemaIsLaidOut(rets: seq<Retention>)
    requires Usable(rets) && rets != [] && FileSize(rets) < U32
    requires forall k :: 0 <= k < |rets| ==> rets[k].toStore < U32
    ensures LaidOut(ArchivesOf(rets), FileSize(rets)) && EndOf(ArchivesOf(rets)) == FileSize(rets)
  {
    var archives := ArchivesOf(rets);
    forall k | 0 <= k < |rets| ensures Sound(archives[k]) && Encodable(archives[k]) {
      RegionsInOrder(rets, k, |rets|);
      RegionStep(rets, k);
      PointsPositive(rets[k]);
    }
    forall k | 1 <= k < |rets| ensures archives[k].offset == archives[k - 1].offset + Size(archives[k - 1]) {
      RegionStep(rets, k - 1);
    }
    RegionStep(rets, |rets| - 1);
    RegionsInOrder(rets, 0, |rets|);
  }

  /** Zero bytes read as slots that were never written. */
  lemma ZerosAreBlank(b: Bytes, archives: seq<Archive>, k: int, j: int)
    requires LaidOut(archives, |b|) && 0 <= k < |archives| && 0 <= j < archives[k].points
    requires forall i :: archives[0].offset <= i < |b| ==> b[i] == 0
    ensures RingsAt(b, archives)[k][j].timestamp == 0
  {
    InsideFile(archives, |b|, k);
    var at := archives[k].offset + j * POINT_SIZE;
    var cell := b[at..at + POINT_SIZE];
    assert forall i :: 0 <= i < 4 ==> cell[..4][i] == b[at + i];
    assert RingsAt(b, archives)[k][j] == DecodePoint(cell);
  }
}
