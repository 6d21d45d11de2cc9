/**
 * From arrival to archive: what a file holds after any mix of arrivals and
 * write-outs.  A file belongs to all the metric names that lead to its path.
 */
module Pipeline {
  import Arith
  import Words
  import opened Ring
  import opened Engine
  import opened Pyramid
  import opened PyramidRuns
  import opened Aggregates
  import opened CacheSpec
  import opened MetricPath
  import opened Tokens
  import opened Soundness
  import Alignment
  import RunLaws

  /** The names that lead to a file. */
  function NamesOf(dir: string, file: string): string -> bool {
    name => SamePath(Filename(dir, name), file)
  }

  /** What one event writes to the file of these names, the cache being as it was before. */
  function Outgoing(names: string -> bool, cache: Cache, e: Event): seq<Sample> {
    if e.WriteOut? && e.k < |cache| && names(cache[e.k].name) then cache[e.k].samples else []
  }

  /** Everything written under these names, in the order it was written. */
  function FileSamples(names: string -> bool, events: seq<Event>): seq<Sample> {
    if events == [] then []
    else
      var before := events[..|events| - 1];
      FileSamples(names, before) + Outgoing(names, HandleAll(before).cache, events[|events| - 1])
  }

  /** The rings of the file of these names after the events. */
  function FileAfter(policy: Policy<real>, archives: seq<Archive>, rings: seq<seq<Point<real>>>,
                     names: string -> bool, events: seq<Event>): seq<seq<Point<real>>>
    requires Levels(archives) && Shaped(archives, rings)
  {
    Run(policy, archives, rings, FileSamples(names, events))
  }

  // Conservation, file by file.

  /** How often `p` is among the points of an entry bound for the file of these names. */
  function Bound(names: string -> bool, e: Entry, p: Sample): nat {
    if names(e.name) then multiset(e.samples)[p] else 0
  }

  /** How often `p` is cached under these names. */
  function CachedUnder(names: string -> bool, c: Cache, p: Sample): nat {
    if c == [] then 0 else CachedUnder(names, c[..|c| - 1], p) + Bound(names, c[|c| - 1], p)
  }

  /** How often `p` arrived under these names. */
  function ArrivedUnder(names: string -> bool, events: seq<Event>, p: Sample): nat {
    if events == [] then 0
    else
      var e := events[|events| - 1];
      ArrivedUnder(names, events[..|events| - 1], p) + if e.Arrival? && names(e.name) && e.sample == p then 1 else 0
  }

  lemma {:induction false} CachedUnderUpdate(names: string -> bool, c: Cache, k: nat, e: Entry, p: Sample)
    requires k < |c|
    ensures CachedUnder(names, c[k := e], p) + Bound(names, c[k], p) == CachedUnder(names, c, p) + Bound(names, e, p)
  {
    var before := c[..|c| - 1];
    if k < |c| - 1 {
      CachedUnderUpdate(names, before, k, e, p);
      assert c[k := e][..|c| - 1] == before[k := e];
    } else {
      assert c[k := e][..|c| - 1] == before;
    }
  }

  lemma {:induction false} ArriveCachedUnder(names: string -> bool, c: Cache, name: string, q: Sample, p: Sample)
    ensures CachedUnder(names, Arrive(c, name, q), p)
         == CachedUnder(names, c, p) + if names(name) && q == p then 1 else 0
  {
    var k := Find(c, name, 0);
    if k < |c| {
      CachedUnderUpdate(names, c, k, Entry(name, c[k].samples + [q]), p);
    } else {
      assert Arrive(c, name, q)[..|c|] == c;
    }
  }

  /** Whatever arrived for a file, under any of its names, was written to it as often as it arrived or is still cached. */
  lemma {:induction false} FileConserves(names: string -> bool, events: seq<Event>, p: Sample)
    ensures multiset(FileSamples(names, events))[p] + CachedUnder(names, HandleAll(events).cache, p)
         == ArrivedUnder(names, events, p)
  {
    if events != [] {
      var before, e := events[..|events| - 1], events[|events| - 1];
      var d := HandleAll(before);
      FileConserves(names, before, p);
      match e
      case Arrival(name, q) => ArriveCachedUnder(names, d.cache, name, q, p);
      case WriteOut(k) =>
        if k < |d.cache| {
          CachedUnderUpdate(names, d.cache, k, Entry(d.cache[k].name, []), p);
        }
    }
  }

  // Names with a file of their own.

  /** Of these names none but `name` arrives. */
  ghost predicate Sole(names: string -> bool, events: seq<Event>, name: string) {
    names(name) && forall i :: 0 <= i < |events| && events[i].Arrival? && names(events[i].name) ==> events[i].name == name
  }

  /** No other name that arrives leads to the file of `name`. */
  ghost predicate OwnFile(dir: string, events: seq<Event>, name: string) {
    Sole(NamesOf(dir, Filename(dir, name)), events, name)
  }

  /** Between slash-free names that is to say that no other name has the same components. */
  lemma OwnFileExactlyWhen(dir: string, events: seq<Event>, name: string)
    requires SlashFree(Components(name))
    requires forall i :: 0 <= i < |events| && events[i].Arrival? ==> SlashFree(Components(events[i].name))
    ensures OwnFile(dir, events, name)
       <==> forall i :: 0 <= i < |events| && events[i].Arrival? && Components(events[i].name) == Components(name) ==>
              events[i].name == name
  {
    forall i | 0 <= i < |events| && events[i].Arrival?
      ensures SamePath(Filename(dir, events[i].name), Filename(dir, name))
         <==> Components(events[i].name) == Components(name)
    {
      SlashFreeShareExactlyWhen(dir, events[i].name, name);
    }
  }

  lemma {:induction false} SoleInCache(names: string -> bool, events: seq<Event>, name: string, k: nat)
    requires Sole(names, events, name) && k < |HandleAll(events).cache|
    ensures names(HandleAll(events).cache[k].name) ==> HandleAll(events).cache[k].name == name
  {
    var before := events[..|events| - 1];
    if k < |HandleAll(before).cache| {
      assert forall i :: 0 <= i < |before| ==> before[i] == events[i];
      SoleInCache(names, before, name, k);
    }
  }

  /** A file with a single name takes that metric's points in the order they arrived. */
  lemma {:induction false} WrittenInArrivalOrder(names: string -> bool, events: seq<Event>, name: string)
    requires Sole(names, events, name)
    ensures FileSamples(names, events) == WrittenFor(HandleAll(events).written, name)
    ensures FileSamples(names, events) <= Arrived(events, name)
  {
    CacheConserves(events, name);
    if events != [] {
      var before, e := events[..|events| - 1], events[|events| - 1];
      assert forall i :: 0 <= i < |before| ==> before[i] == events[i];
      WrittenInArrivalOrder(names, before, name);
      if e.WriteOut? && e.k < |HandleAll(before).cache| {
        SoleInCache(names, before, name, e.k);
      }
    }
  }

  // What a file holds.

  /** A file written in order, under all the names that lead to it, only ever holds true means of what was written to it. */
  lemma {:induction false} ServedAveragesAreTrueMeans(xff: real, archives: seq<Archive>, rings: seq<seq<Point<real>>>,
                                                      dir: string, events: seq<Event>, file: string, k: int, j: int)
    requires 0.0 < xff && Levels(archives) && Dividing(archives) && Shaped(archives, rings) && Blank(rings)
    requires file != "" && Ordered(archives[0].step, FileSamples(NamesOf(dir, file), events))
    requires Defined(AggregatePolicy(Average, xff), archives, rings, FileSamples(NamesOf(dir, file), events))
    requires 0 <= k < |archives| && 0 <= j < archives[k].points
    ensures var p := FileAfter(AggregatePolicy(Average, xff), archives, rings, NamesOf(dir, file), events)[k][j];
            var hist := History(archives[0].step, FileSamples(NamesOf(dir, file), events));
            p.timestamp != 0 ==>
              IsMean(hist, archives[0].step, FinePoints(archives, k), archives[k].step, p.timestamp, p.value)
  {
    StoredAveragesAreTrueMeans(xff, archives, rings, FileSamples(NamesOf(dir, file), events), k, j);
  }

  /**
   * A file whose run under all its names is regular and whose history is aligned
   * answers, in every archive and within its reach, exactly what its level has.
   */
  lemma {:induction false} FileAnswersLevels(policy: Policy<real>, archives: seq<Archive>, rings: seq<seq<Point<real>>>,
                                             names: string -> bool, events: seq<Event>, k: int, t: int)
    requires Chain(archives) && Shaped(archives, rings) && Blank(rings) && 0 <= k < |archives|
    requires Regular(archives[0].step, FileSamples(names, events))
    requires Defined(policy, archives, rings, FileSamples(names, events))
    requires Alignment.Aligned(policy, archives, History(archives[0].step, FileSamples(names, events)))
    requires Latest(archives[0].step, FileSamples(names, events)) < t + archives[k].points * archives[k].step
    ensures var level := Level(policy, archives, History(archives[0].step, FileSamples(names, events)), k);
            RunLaws.Lookup(FileAfter(policy, archives, rings, names, events)[k], archives[k], t)
            == if t in level then Some(level[t]) else None
  {
    RunLaws.LookupIsLevel(policy, archives, rings, FileSamples(names, events), k, t);
  }

  lemma {:induction false} SoleMeans(xff: real, archives: seq<Archive>, rings: seq<seq<Point<real>>>,
                                     names: string -> bool, events: seq<Event>, name: string, k: int, j: int)
    requires 0.0 < xff && Safe(archives) && Dividing(archives) && Shaped(archives, rings) && Blank(rings)
    requires Sole(names, events, name) && Ordered(archives[0].step, Arrived(events, name))
    requires 0 <= k < |archives| && 0 <= j < archives[k].points
    ensures var p := FileAfter(AggregatePolicy(Average, xff), archives, rings, names, events)[k][j];
            var hist := History(archives[0].step, WrittenFor(HandleAll(events).written, name));
            p.timestamp != 0 ==>
              IsMean(hist, archives[0].step, FinePoints(archives, k), archives[k].step, p.timestamp, p.value)
  {
    var written, arrived := FileSamples(names, events), Arrived(events, name);
    WrittenInArrivalOrder(names, events, name);
    assert forall i :: 0 <= i < |written| ==> written[i] == arrived[i];
    SafeRunsAreDefined(AggregatePolicy(Average, xff), archives, rings, written);
    StoredAveragesAreTrueMeans(xff, archives, rings, written, k, j);
  }

  /**
   * So, on safe archives, if a metric's points arrive in order and no other name
   * leads to its file, the file only ever holds true means of that metric's points.
   */
  lemma {:induction false} OwnFileHoldsTrueMeans(xff: real, archives: seq<Archive>, rings: seq<seq<Point<real>>>,
                                                 dir: string, events: seq<Event>, name: string, k: int, j: int)
    requires 0.0 < xff && Safe(archives) && Dividing(archives) && Shaped(archives, rings) && Blank(rings)
    requires Components(name) != [] && OwnFile(dir, events, name) && Ordered(archives[0].step, Arrived(events, name))
    requires 0 <= k < |archives| && 0 <= j < archives[k].points
    ensures var p := FileAfter(AggregatePolicy(Average, xff), archives, rings, NamesOf(dir, Filename(dir, name)), events)[k][j];
            var hist := History(archives[0].step, WrittenFor(HandleAll(events).written, name));
            p.timestamp != 0 ==>
              IsMean(hist, archives[0].step, FinePoints(archives, k), archives[k].step, p.timestamp, p.value)
  {
    SoleMeans(xff, archives, rings, NamesOf(dir, Filename(dir, name)), events, name, k, j);
  }

  /** Whatever two pieces a name has, it shares its file with three others: empty pieces do not count. */
  lemma {:induction false} NamesOfOneFile(dir: string, s: string, t: string)
    requires Piece(s, '.') && Piece(t, '.') && Piece(s, '/') && Piece(t, '/')
    ensures SamePath(Filename(dir, s + ['.'] + t), Filename(dir, s + ['.', '.'] + t))
    ensures SamePath(Filename(dir, s + ['.'] + t), Filename(dir, s + ['/'] + t))
    ensures SamePath(Filename(dir, s + ['.'] + t), Filename(dir, s + ['/', '/'] + t))
  {
    SplitTwo(s, t, '.');
    SlashFreeIsSlashed([s, t]);
    SlashedName(s, ['/'], t);
    SlashedName(s, ['/', '/'], t);
    SharedFileExactlyWhen(dir, s + ['.'] + t, s + ['.', '.'] + t);
    SharedFileExactlyWhen(dir, s + ['.'] + t, s + ['/'] + t);
    SharedFileExactlyWhen(dir, s + ['.'] + t, s + ['/', '/'] + t);
  }

  lemma {:induction false} SlashedName(s: string, slashes: string, t: string)
    requires Piece(s, '.') && Piece(t, '.') && Piece(s, '/') && Piece(t, '/')
    requires slashes == ['/'] || slashes == ['/', '/']
    ensures var ts := Components(s + slashes + t); ts != [] && Slashed(ts) == [s, t] && !SuffixApart(ts)
  {
    var name := s + slashes + t;
    SplitOne(name, '.');
    SplitTwo(s, t, '/');
    var ts := [name];
    assert ts[..0] == [] && Slashed(ts) == Slashed(ts[..0]) + Split(name, '/');
    assert name[|name| - 1] == t[|t| - 1];
  }

  lemma {:induction false} OneMore(names: string -> bool, events: seq<Event>, e: Event, name: string)
    ensures HandleAll(events + [e]) == Handle(HandleAll(events), e)
    ensures FileSamples(names, events + [e]) == FileSamples(names, events) + Outgoing(names, HandleAll(events).cache, e)
    ensures Arrived(events + [e], name)
         == Arrived(events, name) + if e.Arrival? && e.name == name then [e.sample] else []
  {
    assert (events + [e])[..|events|] == events;
  }

  /** Two points that arrive under two names of a file and are written out, in that order. */
  function TwoWriteOuts(a: string, p: Sample, b: string, q: Sample): seq<Event> {
    [] + [Arrival(a, p)] + [Arrival(b, q)] + [WriteOut(0)] + [WriteOut(1)]
  }

  lemma {:induction false} TwoArrivalsLeave(names: string -> bool, a: string, p: Sample, b: string, q: Sample, name: string)
    requires a != b
    ensures var es := [] + [Arrival(a, p)] + [Arrival(b, q)];
            && HandleAll(es).cache == [Entry(a, [p]), Entry(b, [q])] && FileSamples(names, es) == []
            && Arrived(es, name) == (if name == a then [p] else []) + if name == b then [q] else []
  {
    OneMore(names, [], Arrival(a, p), name);
    var es := [] + [Arrival(a, p)];
    assert HandleAll(es).cache == [Entry(a, [p])];
    OneMore(names, es, Arrival(b, q), name);
  }

  lemma {:induction false} TwoWriteOutsLeave(names: string -> bool, a: string, p: Sample, b: string, q: Sample,
                                             name: string)
    requires names(a) && names(b) && a != b
    ensures Arrived(TwoWriteOuts(a, p, b, q), name) == (if name == a then [p] else []) + if name == b then [q] else []
    ensures FileSamples(names, TwoWriteOuts(a, p, b, q)) == [p, q]
  {
    TwoArrivalsLeave(names, a, p, b, q, name);
    var es := [] + [Arrival(a, p)] + [Arrival(b, q)];
    OneMore(names, es, WriteOut(0), name);
    assert HandleAll(es + [WriteOut(0)]).cache == [Entry(a, []), Entry(b, [q])];
    OneMore(names, es + [WriteOut(0)], WriteOut(1), name);
  }

  /** Two names of one file, each in order: the file need not be written in order. */
  lemma {:induction false} SharedFileOutOfOrder(names: string -> bool, a: string, b: string, p: Sample, q: Sample, step: int)
    requires a != b && names(a) && names(b)
    requires 0 < step <= q.timestamp && p.timestamp < Words.U32 && Align(q.timestamp, step) < Align(p.timestamp, step)
    ensures var events := TwoWriteOuts(a, p, b, q);
            && Ordered(step, Arrived(events, a)) && Ordered(step, Arrived(events, b))
            && FileSamples(names, events) == [p, q] && !Ordered(step, FileSamples(names, events))
  {
    TwoWriteOutsLeave(names, a, p, b, q, a);
    TwoWriteOutsLeave(names, a, p, b, q, b);
    InOrderApart(p, q, step);
  }

  lemma InOrderApart(p: Sample, q: Sample, step: int)
    requires 0 < step <= q.timestamp && p.timestamp < Words.U32 && Align(q.timestamp, step) < Align(p.timestamp, step)
    ensures Ordered(step, [p]) && Ordered(step, [q]) && !Ordered(step, [p, q])
  {
    assert [p, q][0] == p && [p, q][1] == q;
    Later(p.timestamp, q.timestamp, step);
  }

  lemma Later(t: int, u: int, step: int)
    requires 0 < step <= u && Align(u, step) < Align(t, step)
    ensures u < t
  {
    assert Align(t, step) == step * (t / step) && Align(u, step) == step * (u / step);
    if t <= u {
      Arith.DivMonotone(t, u, step);
      Arith.MulMonotone(t / step, u / step, step);
    }
  }
}
