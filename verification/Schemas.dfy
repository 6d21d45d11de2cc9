/** Two schemas, from their text to what their files do. */
module Schemas {
  import Arith
  import opened Ring
  import opened Window
  import opened Engine
  import opened Pyramid
  import opened PyramidRuns
  import opened Layout
  import opened Tokens
  import opened RetentionParser

  const SECONDS := Pair(Duration(1, Seconds), Duration(6, Hours))
  const MINUTES := Pair(Duration(60, Seconds), Duration(1, Days))
  const THREES := Pair(Duration(180, Seconds), Duration(1, Weeks))
  const HOURS := Pair(Duration(3600, Seconds), Duration(4, Weeks))

  /** What the pairs of a schema are in seconds. */
  function InSecondsAll(ps: seq<Pair>): seq<Retention> {
    seq(|ps|, i requires 0 <= i < |ps| => Retention(InSeconds(ps[i].perPoint), InSeconds(ps[i].toStore)))
  }

  lemma {:induction false} Parses(ps: seq<Pair>, line: string)
    requires Fits32(ps) && Spaced(line, ListText(ps))
    ensures Parsable(Split(Trimmed(line), ',')) && ParseItems(Split(Trimmed(line), ',')) == InSecondsAll(ps)
  {
    RetentionParse(ps, line);
  }

  lemma DurationTexts()
    ensures DurationText(Duration(1, Seconds)) == "1s" && DurationText(Duration(6, Hours)) == "6h"
    ensures DurationText(Duration(60, Seconds)) == "60s" && DurationText(Duration(1, Days)) == "1d"
    ensures DurationText(Duration(180, Seconds)) == "180s" && DurationText(Duration(1, Weeks)) == "1w"
    ensures DurationText(Duration(3600, Seconds)) == "3600s" && DurationText(Duration(4, Weeks)) == "4w"
  {
    assert Decimal(60) == "60" && Decimal(180) == "180";
    assert Decimal(3600) == Decimal(360) + "0" && Decimal(360) == "360";
  }

  lemma PairTextIs(p: Pair)
    ensures PairText(p) == DurationText(p.perPoint) + ":" + DurationText(p.toStore)
  {
    var s, t := DurationText(p.perPoint), DurationText(p.toStore);
    assert [s, t] == [s] + [t] && [t] == [t] + [];
    JoinCons(s, [t], ':');
    JoinCons(t, [], ':');
  }

  lemma SchemaTexts()
    ensures PairText(SECONDS) == "1s:6h" && PairText(MINUTES) == "60s:1d"
    ensures PairText(THREES) == "180s:1w" && PairText(HOURS) == "3600s:4w"
  {
    DurationTexts();
    PairTextIs(SECONDS);
    PairTextIs(MINUTES);
    PairTextIs(THREES);
    PairTextIs(HOURS);
  }

  lemma TwoTexts(p: Pair, q: Pair)
    ensures ListText([p, q]) == PairText(p) + "," + PairText(q)
  {
    assert [p, q] == [p] + [q] && [q] == [q] + [];
    ListTextCons(q, []);
    ListTextCons(p, [q]);
  }

  lemma ThreeTexts(p: Pair, q: Pair, r: Pair)
    ensures ListText([p, q, r]) == PairText(p) + "," + (PairText(q) + "," + PairText(r))
  {
    assert [p, q, r] == [p] + [q, r];
    TwoTexts(q, r);
    ListTextCons(p, [q, r]);
  }

  /** Where the regions of a schema start, one after the other. */
  lemma RegionAfter(rets: seq<Retention>, k: int)
    requires Usable(rets) && 0 < k < |rets|
    ensures RegionStart(rets, 0) == HEADER_SIZE + |rets| * RECORD_SIZE
    ensures RegionStart(rets, k) == RegionStart(rets, k - 1) + PointsOf(rets[k - 1]) * POINT_SIZE
  {
    RegionStep(rets, k - 1);
  }

  lemma ShippedArchives()
    ensures var rets := InSecondsAll([MINUTES, THREES]);
            Usable(rets) && ArchivesOf(rets) == [Archive(40, 60, 1440), Archive(17320, 180, 3360)]
  {
    var rets := InSecondsAll([MINUTES, THREES]);
    assert rets == [Retention(60, 86400), Retention(180, 604800)];
    RegionAfter(rets, 1);
  }

  lemma OverrunningArchives()
    ensures var rets := InSecondsAll([SECONDS, MINUTES, HOURS]);
            && Usable(rets)
            && ArchivesOf(rets) == [Archive(52, 1, 21600), Archive(259252, 60, 1440), Archive(276532, 3600, 672)]
  {
    var rets := InSecondsAll([SECONDS, MINUTES, HOURS]);
    assert rets == [Retention(1, 21600), Retention(60, 86400), Retention(3600, 2419200)];
    RegionAfter(rets, 1);
    RegionAfter(rets, 2);
  }

  lemma ShippedText()
    ensures PairText(MINUTES) + "," + PairText(THREES) == "60s:1d,180s:1w"
  {
    SchemaTexts();
  }

  lemma {:induction false} ShippedParses(line: string)
    requires Spaced(line, "60s:1d,180s:1w")
    ensures Parsable(Split(Trimmed(line), ','))
    ensures ParseItems(Split(Trimmed(line), ',')) == InSecondsAll([MINUTES, THREES])
  {
    ShippedText();
    TwoTexts(MINUTES, THREES);
    Parses([MINUTES, THREES], line);
  }

  lemma OverrunningTail()
    ensures PairText(MINUTES) + "," + PairText(HOURS) == "60s:1d,3600s:4w"
  {
    SchemaTexts();
  }

  lemma OverrunningText()
    ensures PairText(SECONDS) + "," + (PairText(MINUTES) + "," + PairText(HOURS)) == "1s:6h,60s:1d,3600s:4w"
  {
    OverrunningTail();
    assert PairText(SECONDS) == "1s:6h" by {
      SchemaTexts();
    }
  }

  lemma {:induction false} OverrunningParses(line: string)
    requires Spaced(line, "1s:6h,60s:1d,3600s:4w")
    ensures Parsable(Split(Trimmed(line), ','))
    ensures ParseItems(Split(Trimmed(line), ',')) == InSecondsAll([SECONDS, MINUTES, HOURS])
  {
    OverrunningText();
    ThreeTexts(SECONDS, MINUTES, HOURS);
    Parses([SECONDS, MINUTES, HOURS], line);
  }

  lemma ShippedChain()
    ensures var archives := [Archive(40, 60, 1440), Archive(17320, 180, 3360)]; Chain(archives) && Safe(archives)
  {
    var archives := [Archive(40, 60, 1440), Archive(17320, 180, 3360)];
    assert Levels(archives) && Count(archives[0], archives[1]) == 3;
  }

  lemma OverrunningChain()
    ensures var archives := [Archive(52, 1, 21600), Archive(259252, 60, 1440), Archive(276532, 3600, 672)];
            Chain(archives) && Count(archives[1], archives[2]) == 60
  {
    var archives := [Archive(52, 1, 21600), Archive(259252, 60, 1440), Archive(276532, 3600, 672)];
    assert Levels(archives);
    assert Tiles(archives[0], archives[1]);
    assert Tiles(archives[1], archives[2]);
  }

  /** The shipped schema, 60 seconds for a day and 180 seconds for a week, is a safe chain. */
  lemma {:induction false} ShippedSchemaIsSafe(line: string)
    requires Spaced(line, "60s:1d,180s:1w")
    ensures Parsable(Split(Trimmed(line), ','))
    ensures var rets := ParseItems(Split(Trimmed(line), ','));
            Usable(rets) && Chain(ArchivesOf(rets)) && Safe(ArchivesOf(rets))
  {
    ShippedParses(line);
    ShippedArchives();
    ShippedChain();
  }

  /**
   * Seconds for six hours, minutes for a day and hours for four weeks: the parser
   * takes it and its windows tile, but no window of the second archive fits the
   * read buffer, so every propagation to the third overruns it.
   */
  lemma {:induction false} OverrunningSchema(line: string)
    requires Spaced(line, "1s:6h,60s:1d,3600s:4w")
    ensures Parsable(Split(Trimmed(line), ','))
    ensures var rets := ParseItems(Split(Trimmed(line), ','));
            && Usable(rets) && |rets| == 3 && Chain(ArchivesOf(rets))
            && Count(ArchivesOf(rets)[1], ArchivesOf(rets)[2]) == 60
            && forall j :: 0 <= j < ArchivesOf(rets)[1].points ==> !Fits(ArchivesOf(rets)[1], j, 60)
  {
    OverrunningParses(line);
    OverrunningArchives();
    OverrunningChain();
    forall j | 0 <= j < 1440 ensures !Fits(Archive(259252, 60, 1440), j, 60) {
      FitsExactlyWhen(Archive(259252, 60, 1440), j, 60);
    }
  }

  /** So no call at a full hour has a defined result, whatever the file holds. */
  lemma OverrunningIsUndefined<V>(policy: Policy<V>, archives: seq<Archive>, rings: seq<seq<Point<V>>>, p: Point<V>)
    requires archives == [Archive(52, 1, 21600), Archive(259252, 60, 1440), Archive(276532, 3600, 672)]
    requires Levels(archives) && Shaped(archives, rings) && p.timestamp % 3600 == 0
    ensures !Accessible(policy, archives, rings, p)
  {
    var r: seq<seq<Point<V>>> := WriteAligned(policy, archives, rings, p);
    var j := Slot(archives[1], r[1][0].timestamp, Start(archives[1], archives[2], p.timestamp));
    FitsExactlyWhen(archives[1], j, 60);
    Arith.DividesTransitive(60, 3600, p.timestamp);
    assert ReachedFrom(archives, p.timestamp, 1, 2);
    assert !GoodAt(policy, archives, rings, r, p.timestamp, 2);
  }
}
