/** The in-memory cache as a list of named queues, and its laws over whole runs. */
module CacheSpec {
  import opened Ring

  type Sample = Point<real>

  /** A metric: its name and the points not yet written to its file, oldest first. */
  datatype Entry = Entry(name: string, samples: seq<Sample>)

  type Cache = seq<Entry>

  predicate UniqueNames(c: Cache) {
    forall i, j :: 0 <= i < j < |c| ==> c[i].name != c[j].name
  }

  /** The first entry of that name at or after position `i`; the length of the list if there is none. */
  function Find(c: Cache, name: string, i: nat): (k: nat)
    requires i <= |c|
    ensures i <= k <= |c|
    ensures k < |c| ==> c[k].name == name
    ensures forall j :: i <= j < k ==> c[j].name != name
    decreases |c| - i
  {
    if i == |c| || c[i].name == name then i else Find(c, name, i + 1)
  }

  /** A point arrives: appended to its metric, which is created at the end of the list if it is new. */
  function Arrive(c: Cache, name: string, p: Sample): Cache {
    var k := Find(c, name, 0);
    if k < |c| then c[k := Entry(name, c[k].samples + [p])] else c + [Entry(name, [p])]
  }

  /** A new metric gets its first point like any other once it is on the list. */
  lemma {:induction false} CreateAndAppend(c: Cache, name: string, p: Sample)
    ensures Find(c, name, 0) == |c| ==>
              (c + [Entry(name, [])])[|c| := Entry(name, [] + [p])] == Arrive(c, name, p)
  {
    assert [] + [p] == [p];
  }

  /** What is cached for a metric. */
  function Cached(c: Cache, name: string): seq<Sample> {
    var k := Find(c, name, 0);
    if k < |c| then c[k].samples else []
  }

  /** The first entry with the most points among the first `n`, if any of them has points. */
  function Largest(c: Cache, n: nat): (r: Option<nat>)
    requires n <= |c|
    ensures r.Some? ==> r.value < n && c[r.value].samples != []
  {
    if n == 0 then None
    else
      var r := Largest(c, n - 1);
      var size := if r.Some? then |c[r.value].samples| else 0;
      if |c[n - 1].samples| > size then Some(n - 1) else r
  }

  /** None exactly when all are empty; otherwise no entry has more points, and no earlier one as many. */
  lemma {:induction false} LargestIs(c: Cache, n: nat)
    requires n <= |c|
    ensures Largest(c, n).None? <==> forall i :: 0 <= i < n ==> c[i].samples == []
    ensures Largest(c, n).Some? ==>
              var k := Largest(c, n).value;
              && (forall i :: 0 <= i < n ==> |c[i].samples| <= |c[k].samples|)
              && (forall i :: 0 <= i < k ==> |c[i].samples| < |c[k].samples|)
  {
    if n > 0 {
      LargestIs(c, n - 1);
    }
  }

  /** An entry after its points were written. */
  function Emptied(c: Cache, k: nat): Cache
    requires k < |c|
  {
    c[k := Entry(c[k].name, [])]
  }

  // Conservation and order.

  datatype Event = Arrival(name: string, sample: Sample) | WriteOut(k: nat)

  /** The cache after the events, and everything written per metric, in order. */
  datatype Daemon = Daemon(cache: Cache, written: map<string, seq<Sample>>)

  function WrittenFor(written: map<string, seq<Sample>>, name: string): seq<Sample> {
    if name in written then written[name] else []
  }

  function Handle(d: Daemon, e: Event): Daemon {
    match e
    case Arrival(name, p) => d.(cache := Arrive(d.cache, name, p))
    case WriteOut(k) =>
      if k >= |d.cache| then d
      else
        var m := d.cache[k];
        Daemon(Emptied(d.cache, k), d.written[m.name := WrittenFor(d.written, m.name) + m.samples])
  }

  function HandleAll(events: seq<Event>): Daemon {
    if events == [] then Daemon([], map[]) else Handle(HandleAll(events[..|events| - 1]), events[|events| - 1])
  }

  /** The points that arrived for a metric, in order. */
  function Arrived(events: seq<Event>, name: string): seq<Sample> {
    if events == [] then []
    else
      var e := events[|events| - 1];
      Arrived(events[..|events| - 1], name) + (if e.Arrival? && e.name == name then [e.sample] else [])
  }

  /** With unique names, finding an entry by its name finds that entry. */
  lemma {:induction false} FindIs(c: Cache, k: nat)
    requires UniqueNames(c) && k < |c|
    ensures Find(c, c[k].name, 0) == k
  {
  }

  lemma ArriveUnique(c: Cache, name: string, p: Sample)
    requires UniqueNames(c)
    ensures UniqueNames(Arrive(c, name, p))
  {
  }

  lemma ArriveCached(c: Cache, name: string, p: Sample, other: string)
    requires UniqueNames(c)
    ensures Cached(Arrive(c, name, p), other) == Cached(c, other) + if other == name then [p] else []
  {
    var k, c' := Find(c, name, 0), Arrive(c, name, p);
    ArriveUnique(c, name, p);
    if k < |c| {
      FindIs(c', k);
    } else {
      FindIs(c', |c|);
    }
    var i := Find(c, other, 0);
    if i < |c| {
      FindIs(c', i);
    } else if other != name {
      assert forall j :: 0 <= j < |c'| ==> c'[j].name != other;
    }
  }

  lemma EmptiedCached(c: Cache, k: nat, other: string)
    requires UniqueNames(c) && k < |c|
    ensures UniqueNames(Emptied(c, k))
    ensures Cached(Emptied(c, k), other) == if other == c[k].name then [] else Cached(c, other)
  {
    var c' := Emptied(c, k);
    FindIs(c', k);
    FindIs(c, k);
    var i := Find(c, other, 0);
    if i < |c| {
      FindIs(c', i);
    } else {
      assert forall j :: 0 <= j < |c'| ==> c'[j].name != other;
    }
  }

  /**
   * Nothing is lost, repeated or reordered: over any events, for every metric,
   * what was written followed by what is cached is what arrived.
   */
  lemma {:induction false} CacheConserves(events: seq<Event>, name: string)
    ensures UniqueNames(HandleAll(events).cache)
    ensures WrittenFor(HandleAll(events).written, name) + Cached(HandleAll(events).cache, name) == Arrived(events, name)
  {
    if events != [] {
      var before, e := events[..|events| - 1], events[|events| - 1];
      var d := HandleAll(before);
      CacheConserves(before, name);
      match e
      case Arrival(n, p) =>
        ArriveUnique(d.cache, n, p);
        ArriveCached(d.cache, n, p, name);
      case WriteOut(k) =>
        if k < |d.cache| {
          FindIs(d.cache, k);
          EmptiedCached(d.cache, k, name);
        }
    }
  }

  /** The names of the metrics, in the order of the list. */
  function Names(c: Cache): (names: seq<string>)
    ensures |names| == |c|
  {
    seq(|c|, i requires 0 <= i < |c| => c[i].name)
  }

  /** The names that arrived, each where it came first. */
  function FirstArrivals(events: seq<Event>): seq<string> {
    if events == [] then []
    else
      var names, e := FirstArrivals(events[..|events| - 1]), events[|events| - 1];
      if e.Arrival? && e.name !in names then names + [e.name] else names
  }

  /** A metric goes to the end of the list when its name first arrives, and stays there, written out or not. */
  lemma {:induction false} MetricsStay(events: seq<Event>)
    ensures Names(HandleAll(events).cache) == FirstArrivals(events)
  {
    if events != [] {
      var before, e := events[..|events| - 1], events[|events| - 1];
      var c := HandleAll(before).cache;
      MetricsStay(before);
      match e
      case Arrival(name, p) =>
        var k := Find(c, name, 0);
        if k < |c| {
          assert Names(c)[k] == name;
          assert Names(Arrive(c, name, p)) == Names(c);
        } else {
          assert Names(Arrive(c, name, p)) == Names(c) + [name];
        }
      case WriteOut(k) =>
        assert k < |c| ==> Names(Emptied(c, k)) == Names(c);
    }
  }

  // Largest first.

  function Nonempty(c: Cache): nat {
    if c == [] then 0 else Nonempty(c[..|c| - 1]) + if c[|c| - 1].samples == [] then 0 else 1
  }

  lemma {:induction false} NonemptyUpdate(c: Cache, k: nat)
    requires k < |c| && c[k].samples != []
    ensures Nonempty(Emptied(c, k)) == Nonempty(c) - 1
  {
    var before := c[..|c| - 1];
    if k < |c| - 1 {
      NonemptyUpdate(before, k);
      assert Emptied(c, k)[..|c| - 1] == Emptied(before, k);
    } else {
      assert Emptied(c, k)[..|c| - 1] == before;
    }
  }

  lemma {:induction false} NonemptyZero(c: Cache)
    ensures Nonempty(c) == 0 <==> forall i :: 0 <= i < |c| ==> c[i].samples == []
  {
    if c != [] {
      NonemptyZero(c[..|c| - 1]);
    }
  }

  /** The batches the writer takes when nothing arrives, until the largest metric is empty. */
  function Batches(c: Cache): seq<Entry>
    decreases Nonempty(c)
  {
    var r := Largest(c, |c|);
    if r.None? then []
    else
      NonemptyUpdate(c, r.value);
      [c[r.value]] + Batches(Emptied(c, r.value))
  }

  lemma {:induction false} BatchesStep(c: Cache, taken: seq<Entry>)
    requires Largest(c, |c|).Some?
    ensures var k := Largest(c, |c|).value;
            Nonempty(Emptied(c, k)) < Nonempty(c) && taken + Batches(c) == taken + [c[k]] + Batches(Emptied(c, k))
  {
    NonemptyUpdate(c, Largest(c, |c|).value);
  }

  lemma EmptiedUnique(c: Cache, k: nat)
    requires UniqueNames(c) && k < |c|
    ensures UniqueNames(Emptied(c, k))
  {
  }

  predicate Nonincreasing(bs: seq<Entry>) {
    forall i, j :: 0 <= i < j < |bs| ==> |bs[j].samples| <= |bs[i].samples|
  }

  /** Every batch is the whole content of a nonempty metric, and there is one for each. */
  lemma {:induction false} BatchesAreMetrics(c: Cache)
    ensures |Batches(c)| == Nonempty(c)
    ensures forall b <- Batches(c) :: b in c && b.samples != []
    ensures forall e <- c :: e.samples != [] ==> e in Batches(c)
    decreases Nonempty(c)
  {
    NonemptyZero(c);
    LargestIs(c, |c|);
    var r := Largest(c, |c|);
    if r.Some? {
      var c' := Emptied(c, r.value);
      NonemptyUpdate(c, r.value);
      BatchesAreMetrics(c');
      forall e <- c' | e.samples != [] ensures e in c {
        var i :| 0 <= i < |c'| && c'[i] == e;
        assert c[i] == e;
      }
      forall e <- c | e.samples != [] && e != c[r.value] ensures e in c' {
        var i :| 0 <= i < |c| && c[i] == e;
        assert c'[i] == e;
      }
    }
  }

  /** The writer takes one batch per nonempty metric, largest first. */
  lemma {:induction false} LargestFirst(c: Cache)
    ensures Nonincreasing(Batches(c))
    decreases Nonempty(c)
  {
    BatchesAreMetrics(c);
    LargestIs(c, |c|);
    var r := Largest(c, |c|);
    if r.Some? {
      var c' := Emptied(c, r.value);
      NonemptyUpdate(c, r.value);
      BatchesAreMetrics(c');
      LargestFirst(c');
      forall b <- Batches(c') ensures |b.samples| <= |c[r.value].samples| {
        var i :| 0 <= i < |c'| && c'[i] == b;
      }
    }
  }
}
