/** Retention lists of a storage schema: trimming, durations and nested splitting (src/conf.c). */
module RetentionParser {
  import Arith
  import opened Words
  import opened Ring
  import opened Layout
  import opened Tokens

  // Trimming in place.

  predicate IsBlank(c: char) { c == ' ' || c == '\t' || c == '\n' || c == '\r' }

  function Trimmed(s: string): string {
    if s == "" then ""
    else Trimmed(s[..|s| - 1]) + if IsBlank(s[|s| - 1]) then "" else [s[|s| - 1]]
  }

  lemma {:induction false} TrimmedAppend(s: string, t: string)
    ensures Trimmed(s + t) == Trimmed(s) + Trimmed(t)
  {
    if t == "" {
      assert s + t == s;
    } else {
      assert (s + t)[..|s + t| - 1] == s + t[..|t| - 1];
      TrimmedAppend(s, t[..|t| - 1]);
    }
  }

  /** Blanks may be put anywhere without changing what trimming leaves. */
  lemma {:induction false} BlankAnywhere(s: string, blank: char, t: string)
    requires IsBlank(blank)
    ensures Trimmed(s + [blank] + t) == Trimmed(s + t)
  {
    TrimmedAppend(s + [blank], t);
    TrimmedAppend(s, [blank]);
    TrimmedAppend(s, t);
    assert [blank][..0] == "";
    assert Trimmed([blank]) == "";
  }

  /** Neither a space, nor a tab, nor an end of line. */
  predicate NoBlanks(s: string) {
    ' ' !in s && '\t' !in s && '\n' !in s && '\r' !in s
  }

  /** The line is the text with spaces, tabs and ends of line put in anywhere. */
  predicate Spaced(line: string, text: string) {
    if line == "" then text == ""
    else
      || (text != "" && line[0] == text[0] && Spaced(line[1..], text[1..]))
      || ((line[0] == ' ' || line[0] == '\t' || line[0] == '\n' || line[0] == '\r') && Spaced(line[1..], text))
  }

  /** Trimming leaves the one text without blanks that the line was got from. */
  lemma {:induction false} TrimmedExactlyWhen(line: string, text: string)
    requires NoBlanks(text)
    ensures Trimmed(line) == text <==> Spaced(line, text)
  {
    if line != "" {
      var rest := line[1..];
      assert line == [line[0]] + rest;
      TrimmedAppend([line[0]], rest);
      TrimmedChar(line[0]);
      if IsBlank(line[0]) {
        TrimmedExactlyWhen(rest, text);
        assert text != "" ==> text[0] in text;
      } else if text != "" {
        assert text == [text[0]] + text[1..];
        TrimmedExactlyWhen(rest, text[1..]);
        assert ([line[0]] + Trimmed(rest))[1..] == Trimmed(rest);
      }
    }
  }

  lemma TrimmedChar(c: char)
    ensures Trimmed([c]) == if IsBlank(c) then "" else [c]
  {
    assert [c][..0] == "";
  }

  lemma {:induction false} TrimmedHasNoBlanks(s: string)
    ensures NoBlanks(Trimmed(s))
  {
    if s != "" {
      TrimmedHasNoBlanks(s[..|s| - 1]);
    }
  }

  /** So what has no blanks stays as it is. */
  lemma {:induction false} SpacedItself(s: string)
    ensures Spaced(s, s)
  {
    if s != "" {
      SpacedItself(s[1..]);
    }
  }

  /** `trim_string` on a buffer holding a string that ends at `end`: compaction in place, then a new end. */
  method Trim(a: array<char>, end: nat) returns (n: nat)
    requires end < a.Length
    modifies a
    ensures n <= end && a[..n] == Trimmed(old(a[..end])) && a[n] == '\0'
    ensures NoBlanks(a[..n]) && Spaced(old(a[..end]), a[..n])
    ensures forall m :: end <= m < a.Length && m != n ==> a[m] == old(a[m])
  {
    n := 0;
    for i := 0 to end
      invariant n <= i && a[..n] == Trimmed(old(a[..i]))
      invariant forall m :: i <= m < a.Length ==> a[m] == old(a[m])
    {
      ghost var s := old(a[..i + 1]);
      assert s[..i] == old(a[..i]) && s[i] == old(a[i]);
      if a[i] != ' ' && a[i] != '\t' && a[i] != '\n' && a[i] != '\r' {
        a[n] := a[i];
        n := n + 1;
      }
    }
    TrimmedHasNoBlanks(old(a[..end]));
    TrimmedExactlyWhen(old(a[..end]), a[..n]);
    ghost var text := a[..n];
    a[n] := '\0';
    assert a[..n] == text;
  }

  // Durations.

  predicate IsDigit(c: char) { '0' <= c <= '9' }

  /** The number that the leading digits denote, continuing from `acc`. */
  function Value(s: string, acc: nat): nat
    decreases |s|
  {
    if s == "" || !IsDigit(s[0]) then acc else Value(s[1..], acc * 10 + (s[0] as int - '0' as int))
  }

  /** `strtoul` on a string without blanks or sign: it stops at 2^64 - 1. */
  function Strtoul(s: string): nat {
    if Value(s, 0) < U64 then Value(s, 0) else U64 - 1
  }

  /** Seconds of the unit a character stands for; 0 if it is none. */
  function UnitOf(c: char): nat {
    if c == 'w' then 604800 else if c == 'd' then 86400 else if c == 'h' then 3600 else if c == 's' then 1 else 0
  }

  /** `str_to_seconds`, with its 32-bit results. */
  function ToSeconds(s: string): Word32
    requires s != ""
  {
    var unit := UnitOf(s[|s| - 1]);
    if unit == 0 then Strtoul(s) % U32 else Mul32(Strtoul(s[..|s| - 1]) % U32, unit)
  }

  function Digit(d: nat): (c: char)
    requires d < 10
    ensures IsDigit(c) && c as int - '0' as int == d
  {
    '0' + d as char
  }

  function Decimal(n: nat): (s: string)
    ensures s != ""
  {
    if n < 10 then [Digit(n)] else Decimal(n / 10) + [Digit(n % 10)]
  }

  predicate AllDigits(s: string) { forall i :: 0 <= i < |s| ==> IsDigit(s[i]) }

  lemma {:induction false} DecimalDigits(n: nat)
    ensures AllDigits(Decimal(n))
  {
    if n >= 10 {
      DecimalDigits(n / 10);
    }
  }

  lemma {:induction false} ValueSnoc(s: string, c: char, acc: nat)
    requires AllDigits(s) && IsDigit(c)
    ensures Value(s + [c], acc) == Value(s, acc) * 10 + (c as int - '0' as int)
    decreases |s|
  {
    if s != "" {
      assert (s + [c])[1..] == s[1..] + [c];
      ValueSnoc(s[1..], c, acc * 10 + (s[0] as int - '0' as int));
    }
  }

  lemma {:induction false} ValueDecimal(n: nat)
    ensures Value(Decimal(n), 0) == n
  {
    DecimalDigits(n);
    if n >= 10 {
      ValueDecimal(n / 10);
      DecimalDigits(n / 10);
      ValueSnoc(Decimal(n / 10), Digit(n % 10), 0);
    } else {
      assert Value([Digit(n)][1..], n) == n;
    }
  }

  /** A count with a unit, as written in a schema. */
  datatype Duration = Duration(count: nat, unit: Unit)
  datatype Unit = NoUnit | Seconds | Hours | Days | Weeks

  function Suffix(u: Unit): string {
    match u case NoUnit => "" case Seconds => "s" case Hours => "h" case Days => "d" case Weeks => "w"
  }

  function Factor(u: Unit): nat {
    match u case NoUnit => 1 case Seconds => 1 case Hours => 3600 case Days => 86400 case Weeks => 604800
  }

  function InSeconds(d: Duration): nat { d.count * Factor(d.unit) }

  function DurationText(d: Duration): (s: string)
    ensures s != ""
  {
    Decimal(d.count) + Suffix(d.unit)
  }

  /** What `strtoul` and a 32-bit result make of a count: its last 32 bits, all ones from 2^64 on. */
  function Read32(n: nat): nat { if n < U64 then n % U32 else U32 - 1 }

  lemma {:induction false} CountRead(n: nat)
    ensures Strtoul(Decimal(n)) % U32 == Read32(n)
    ensures ToSeconds(Decimal(n)) == Read32(n)
  {
    ValueDecimal(n);
    DecimalDigits(n);
    assert (U64 - 1) % U32 == U32 - 1;
    assert IsDigit(Decimal(n)[|Decimal(n)| - 1]);
  }

  /** A unit letter after a string multiplies the number it stands for. */
  lemma UnitMultiplies(s: string, c: char)
    requires UnitOf(c) != 0
    ensures ToSeconds(s + [c]) == Mul32(Strtoul(s) % U32, UnitOf(c))
  {
    assert (s + [c])[..|s + [c]| - 1] == s;
  }

  /** What any duration is read as. */
  lemma DurationRead(d: Duration)
    ensures ToSeconds(DurationText(d)) == (Read32(d.count) * Factor(d.unit)) % U32
    ensures d.count < U64 ==> ToSeconds(DurationText(d)) == InSeconds(d) % U32
  {
    CountRead(d.count);
    WithUnit(Decimal(d.count), Read32(d.count), d.unit);
    ModuloTimes(d.count, Factor(d.unit));
  }

  lemma ModuloTimes(n: nat, f: nat)
    ensures (n % U32 * f) % U32 == (n * f) % U32
  {
    assert n * f == n % U32 * f + (n / U32 * f) * U32;
    Arith.ModShift(n % U32 * f, n / U32 * f, U32);
  }

  /** A duration is read back as its seconds exactly if they are 32-bit. */
  lemma DurationRoundTrip(d: Duration)
    ensures ToSeconds(DurationText(d)) == InSeconds(d) <==> InSeconds(d) < U32
  {
    DurationRead(d);
    if InSeconds(d) < U32 {
      CountFits(d.count, d.unit);
      Exact32(InSeconds(d));
    }
  }

  lemma {:induction false} ValueStops(s: string, c: char, acc: nat)
    requires AllDigits(s) && !IsDigit(c)
    ensures Value(s + [c], acc) == Value(s, acc)
    decreases |s|
  {
    if s == "" {
      assert s + [c] == [c];
    } else {
      assert (s + [c])[1..] == s[1..] + [c];
      ValueStops(s[1..], c, acc * 10 + (s[0] as int - '0' as int));
    }
  }

  /** Any other letter, `m` for one, leaves the count in seconds. */
  lemma {:induction false} OtherLettersMeanSeconds(n: nat, c: char)
    requires !IsDigit(c) && c != 's' && c != 'h' && c != 'd' && c != 'w'
    ensures ToSeconds(Decimal(n) + [c]) == Read32(n)
  {
    CountRead(n);
    DecimalDigits(n);
    ValueStops(Decimal(n), c, 0);
  }

  lemma CountFits(n: nat, u: Unit)
    requires n * Factor(u) < U32
    ensures n < U32
  {
    if n > 0 {
      Arith.MulAtLeast(Factor(u), n);
    }
  }

  /** The suffix of a unit multiplies the number before it. */
  lemma WithUnit(s: string, n: nat, u: Unit)
    requires s != "" && Strtoul(s) % U32 == n && ToSeconds(s) == n
    ensures ToSeconds(s + Suffix(u)) == (n * Factor(u)) % U32
  {
    if u.NoUnit? {
      assert s + Suffix(u) == s;
      Exact32(n);
    } else {
      SuffixLetter(u);
      UnitMultiplies(s, Suffix(u)[0]);
    }
  }

  lemma SuffixLetter(u: Unit)
    requires !u.NoUnit?
    ensures Suffix(u) == [Suffix(u)[0]] && UnitOf(Suffix(u)[0]) == Factor(u) != 0
  {
  }

  // Items and lists.

  /** An item is two durations around a colon. */
  function ParseItem(s: string): Retention
    requires |Split(s, ':')| >= 2
  {
    SplitPieces(s, ':');
    var ts := Split(s, ':');
    Retention(ToSeconds(ts[0]), ToSeconds(ts[1]))
  }

  predicate Parsable(items: seq<string>) {
    forall i :: 0 <= i < |items| ==> |Split(items[i], ':')| >= 2
  }

  function ParseItems(items: seq<string>): (rs: seq<Retention>)
    requires Parsable(items)
    ensures |rs| == |items|
  {
    seq(|items|, i requires 0 <= i < |items| => ParseItem(items[i]))
  }

  /**
   * `parse_retention_list_str`: items are taken one by one and appended to the
   * list.  At an item without two durations the source reads through a null
   * pointer and there is no list.
   */
  method ParseList(s: string) returns (rs: Option<seq<Retention>>)
    ensures rs == if Parsable(Split(s, ',')) then Some(ParseItems(Split(s, ','))) else None
  {
    var list := [];
    var (cur, rest) := Next(s, ',');
    NextIsHead(s, ',');
    ghost var done: seq<string> := [];
    while cur != ""
      invariant Split(s, ',') == done + if cur == "" then [] else [cur] + Split(rest, ',')
      invariant Parsable(done) && list == ParseItems(done)
      decreases |rest| + if cur == "" then 0 else 1
    {
      if |Split(cur, ':')| < 2 {
        assert Split(s, ',')[|done|] == cur;
        return None;
      }
      ItemsSnoc(done, cur);
      NextMovesOn(Split(s, ','), done, cur, rest, ',');
      list := list + [ParseItem(cur)];
      done := done + [cur];
      var (next, left) := Next(rest, ',');
      cur, rest := next, left;
    }
    assert Split(s, ',') == done;
    return Some(list);
  }

  lemma {:induction false} ItemsSnoc(done: seq<string>, item: string)
    requires Parsable(done) && |Split(item, ':')| >= 2
    ensures Parsable(done + [item]) && ParseItems(done + [item]) == ParseItems(done) + [ParseItem(item)]
  {
  }

  /** A pair of a schema line, and its text. */
  datatype Pair = Pair(perPoint: Duration, toStore: Duration)

  function PairText(p: Pair): string { Join([DurationText(p.perPoint), DurationText(p.toStore)], ':') }

  function PairTexts(ps: seq<Pair>): (ts: seq<string>)
    ensures |ts| == |ps|
  {
    seq(|ps|, i requires 0 <= i < |ps| => PairText(ps[i]))
  }

  function ListText(ps: seq<Pair>): string { Join(PairTexts(ps), ',') }

  /** The text of a list of pairs begins with the first pair. */
  lemma {:induction false} ListTextCons(p: Pair, ps: seq<Pair>)
    ensures ListText([p] + ps) == PairText(p) + if ps == [] then "" else [','] + ListText(ps)
  {
    assert PairTexts([p] + ps) == [PairText(p)] + PairTexts(ps);
    JoinCons(PairText(p), PairTexts(ps), ',');
  }

  ghost predicate Fits32(ps: seq<Pair>) {
    forall i :: 0 <= i < |ps| ==> InSeconds(ps[i].perPoint) < U32 && InSeconds(ps[i].toStore) < U32
  }

  /** Durations contain digits and unit letters only. */
  lemma DurationIsPiece(d: Duration, sep: char)
    requires sep == ':' || sep == ','
    ensures Piece(DurationText(d), sep)
  {
    DecimalDigits(d.count);
  }

  lemma PairSplits(p: Pair)
    ensures Split(PairText(p), ':') == [DurationText(p.perPoint), DurationText(p.toStore)]
    ensures Piece(PairText(p), ',')
  {
    DurationIsPiece(p.perPoint, ':');
    DurationIsPiece(p.toStore, ':');
    DurationIsPiece(p.perPoint, ',');
    DurationIsPiece(p.toStore, ',');
    var ts := [DurationText(p.perPoint), DurationText(p.toStore)];
    SplitJoin(ts, ':');
    assert ts[1..] == [ts[1]] && ts[1..][1..] == [];
    assert Lead([ts[1]], ':') == ":" + ts[1] + Lead([], ':');
  }

  lemma PairRoundTrip(p: Pair)
    requires InSeconds(p.perPoint) < U32 && InSeconds(p.toStore) < U32
    ensures |Split(PairText(p), ':')| == 2
    ensures ParseItem(PairText(p)) == Retention(InSeconds(p.perPoint), InSeconds(p.toStore))
  {
    PairSplits(p);
    DurationRoundTrip(p.perPoint);
    DurationRoundTrip(p.toStore);
  }

  /** Whatever follows the two durations of an item, after another colon, is not looked at. */
  lemma {:induction false} MoreIsIgnored(p: Pair, more: string)
    requires InSeconds(p.perPoint) < U32 && InSeconds(p.toStore) < U32
    ensures |Split(PairText(p) + (":" + more), ':')| >= 2
    ensures ParseItem(PairText(p) + (":" + more)) == Retention(InSeconds(p.perPoint), InSeconds(p.toStore))
  {
    PairSplits(p);
    DurationRoundTrip(p.perPoint);
    DurationRoundTrip(p.toStore);
    SplitAppend(PairText(p), ":" + more, ':');
  }

  lemma {:induction false} LeadHasNoBlanks(ts: seq<string>, sep: char)
    requires NoBlanks([sep]) && forall i :: 0 <= i < |ts| ==> NoBlanks(ts[i])
    ensures NoBlanks(Lead(ts, sep))
  {
    if ts != [] {
      LeadHasNoBlanks(ts[1..], sep);
    }
  }

  lemma JoinHasNoBlanks(ts: seq<string>, sep: char)
    requires NoBlanks([sep]) && forall i :: 0 <= i < |ts| ==> NoBlanks(ts[i])
    ensures NoBlanks(Join(ts, sep))
  {
    if ts != [] {
      LeadHasNoBlanks(ts[1..], sep);
    }
  }

  lemma DurationHasNoBlanks(d: Duration)
    ensures NoBlanks(DurationText(d))
  {
    DecimalDigits(d.count);
  }

  /** The text of a list of pairs has no blanks of its own. */
  lemma {:induction false} ListHasNoBlanks(ps: seq<Pair>)
    ensures NoBlanks(ListText(ps))
  {
    forall i | 0 <= i < |ps| ensures NoBlanks(PairTexts(ps)[i]) {
      DurationHasNoBlanks(ps[i].perPoint);
      DurationHasNoBlanks(ps[i].toStore);
      JoinHasNoBlanks([DurationText(ps[i].perPoint), DurationText(ps[i].toStore)], ':');
    }
    JoinHasNoBlanks(PairTexts(ps), ',');
  }

  /**
   * Retention parse: whatever spaces, tabs and ends of line were put into the
   * text of a list of pairs, trimming and parsing yield the same pairs in the
   * same order, in seconds.
   */
  lemma {:induction false} RetentionParse(ps: seq<Pair>, line: string)
    requires Fits32(ps) && Spaced(line, ListText(ps))
    ensures var items := Split(Trimmed(line), ',');
            && Parsable(items) && |items| == |ps|
            && forall i :: 0 <= i < |ps| ==>
                 ParseItems(items)[i] == Retention(InSeconds(ps[i].perPoint), InSeconds(ps[i].toStore))
  {
    ListHasNoBlanks(ps);
    TrimmedExactlyWhen(line, ListText(ps));
    var texts := PairTexts(ps);
    forall i | 0 <= i < |ps| ensures Piece(texts[i], ',') {
      PairSplits(ps[i]);
    }
    SplitJoin(texts, ',');
    forall i | 0 <= i < |ps|
      ensures |Split(texts[i], ':')| >= 2
      ensures ParseItem(texts[i]) == Retention(InSeconds(ps[i].perPoint), InSeconds(ps[i].toStore))
    {
      PairRoundTrip(ps[i]);
    }
  }

  // First match.

  datatype Match = Hit | Miss | Broken

  /** What a lookup by pattern finds: the first hit, unless a broken pattern comes before it. */
  function FirstMatch(results: seq<Match>): Option<nat> {
    if results == [] || results[0] == Broken then None
    else if results[0] == Hit then Some(0)
    else
      var r := FirstMatch(results[1..]);
      if r.None? then None else Some(r.value + 1)
  }

  /** `whisper_find_retention` and `whisper_find_aggregation`: the walk stops at a hit or a broken pattern. */
  method FindEntry(patterns: seq<string>, name: string, matches: (string, string) -> Match) returns (r: Option<nat>)
    ensures r == FirstMatch(seq(|patterns|, i requires 0 <= i < |patterns| => matches(patterns[i], name)))
  {
    ghost var all := seq(|patterns|, i requires 0 <= i < |patterns| => matches(patterns[i], name));
    var i := 0;
    assert all[0..] == all;
    while i < |patterns|
      invariant 0 <= i <= |patterns|
      invariant FirstMatch(all) == var t := FirstMatch(all[i..]); if t.None? then None else Some(t.value + i)
    {
      assert all[i] == matches(patterns[i], name) && all[i..][1..] == all[i + 1..];
      match matches(patterns[i], name)
      case Hit => return Some(i);
      case Broken => return None;
      case Miss => i := i + 1;
    }
    return None;
  }

  /** The lookup finds an entry exactly if it is the first that is not a miss, and it is a hit. */
  lemma {:induction false} FirstMatchExactlyWhen(results: seq<Match>, k: nat)
    ensures FirstMatch(results) == Some(k)
       <==> k < |results| && results[k] == Hit && forall i :: 0 <= i < k ==> results[i] == Miss
  {
    if results != [] && results[0] == Miss {
      var rest := results[1..];
      if k > 0 {
        FirstMatchExactlyWhen(rest, k - 1);
        assert forall i :: 1 <= i < |results| ==> results[i] == rest[i - 1];
        assert forall i :: 0 <= i < |rest| ==> rest[i] == results[i + 1];
      }
    }
  }

  /** When every pattern compiles the lookup returns the first entry that matches, and none only if none does. */
  lemma {:induction false} FirstMatchIsFirst(results: seq<Match>)
    requires Broken !in results
    ensures FirstMatch(results).None? <==> Hit !in results
    ensures FirstMatch(results).Some? ==>
              var k := FirstMatch(results).value;
              k < |results| && results[k] == Hit && Hit !in results[..k]
  {
    if results != [] && results[0] == Miss {
      FirstMatchIsFirst(results[1..]);
      var r := FirstMatch(results[1..]);
      if r.Some? {
        assert results[..r.value + 1] == [Miss] + results[1..][..r.value];
      } else {
        assert results == [Miss] + results[1..];
      }
    }
  }
}
