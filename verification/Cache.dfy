/**
 * The metric cache of src/database.c and the loops over it, against the cache of
 * named queues.  A metric is a linked queue with a tail pointer and a count; the
 * list of metrics is a sequence.
 */
module Cache {
  import opened Ring
  import opened CacheSpec

  const MAX_POINTS: int := 0x1_0000_0000

  /** `metric_point_t`. */
  class PointNode {
    const timestamp: int
    const value: real
    var next: PointNode?
    /** The metric this node belongs to and its place there. */
    ghost var owner: Metric?
    ghost var index: nat

    constructor (timestamp: int, value: real)
      ensures this.timestamp == timestamp && this.value == value && next == null && owner == null
    {
      this.timestamp, this.value := timestamp, value;
      next, owner, index := null, null, 0;
    }
  }

  /** `metric_t`: a queue of points with a tail pointer and a count. */
  class Metric {
    const name: string
    var nbPoints: int
    var points: PointNode?
    var last: PointNode?
    ghost var nodes: seq<PointNode>
    ghost var samples: seq<Sample>

    ghost predicate Valid()
      reads this, nodes
    {
      && nbPoints == |nodes| == |samples|
      && points == (if nodes == [] then null else nodes[0])
      && last == (if nodes == [] then null else nodes[|nodes| - 1])
      && (forall i :: 0 <= i < |nodes| ==> nodes[i].owner == this && nodes[i].index == i)
      && (forall i {:trigger nodes[i].next} :: 0 <= i < |nodes| ==> nodes[i].next == if i + 1 < |nodes| then nodes[i + 1] else null)
      && (forall i :: 0 <= i < |nodes| ==> samples[i] == Point(nodes[i].timestamp, nodes[i].value))
    }

    /** The metric is sound, has the entry's name and points, and its points are among `all`. */
    ghost predicate StandsFor(e: Entry, all: set<PointNode>)
      reads this, all
    {
      name == e.name && samples == e.samples && (forall n <- nodes :: n in all) && Valid()
    }

    constructor (name: string)
      ensures Valid() && this.name == name && samples == [] && nodes == []
    {
      this.name := name;
      nbPoints, points, last := 0, null, null;
      nodes, samples := [], [];
    }

    /** `add_database_metric_point`. */
    method Add(p: PointNode)
      requires Valid() && p.next == null && p.owner == null && nbPoints + 1 < MAX_POINTS
      modifies this`points, this`last, this`nbPoints, this`nodes, this`samples, p, nodes`next
      ensures Valid()
      ensures nodes == old(nodes) + [p]
      ensures samples == old(samples) + [Point(p.timestamp, p.value)]
    {
      if last == null {
        points := p;
      } else {
        last.next := p;
      }
      last := p;
      nbPoints := nbPoints + 1;
      p.owner, p.index := this, |nodes|;
      nodes := nodes + [p];
      samples := samples + [Point(p.timestamp, p.value)];
    }

    /** `write_metric`: the points are handed to the file writer in list order, then the list is emptied. */
    method WriteOut() returns (written: seq<Sample>)
      requires Valid()
      modifies this`points, this`last, this`nbPoints, this`nodes, this`samples
      ensures Valid()
      ensures written == old(samples) && samples == [] && nodes == []
    {
      written := [];
      var p := points;
      ghost var i := 0;
      while p != null
        invariant 0 <= i <= |nodes| && p == (if i < |nodes| then nodes[i] else null)
        invariant written == samples[..i]
        decreases |nodes| - i
      {
        written := written + [Point(p.timestamp, p.value)];
        p := p.next;
        i := i + 1;
      }
      nbPoints, points, last := 0, null, null;
      nodes, samples := [], [];
    }
  }

  /** `metrics_database_t`: the metrics in order of creation. */
  class Database {
    var metrics: seq<Metric>
    ghost var cache: CacheSpec.Cache
    /** All points of all metrics. */
    ghost var nodes: set<PointNode>

    ghost predicate Valid()
      reads this, metrics, nodes
    {
      && |cache| == |metrics| && UniqueNames(cache)
      && (forall i :: 0 <= i < |metrics| ==> metrics[i].StandsFor(cache[i], nodes))
    }

    constructor ()
      ensures Valid() && cache == []
    {
      metrics, cache, nodes := [], [], {};
    }

    /** `get_metric`: the place of the metric of that name, or the end of the list. */
    method Get(name: string) returns (k: nat)
      requires Valid()
      ensures k == Find(cache, name, 0)
    {
      k := 0;
      while k < |metrics|
        invariant k <= |metrics| && Find(cache, name, 0) == Find(cache, name, k)
      {
        if metrics[k].name == name {
          return;
        }
        k := k + 1;
      }
    }

    /** `add_database_metric`, for a name not in the list. */
    method AddMetric(name: string)
      requires Valid() && Find(cache, name, 0) == |cache|
      modifies this
      ensures Valid() && nodes == old(nodes) && cache == old(cache) + [Entry(name, [])]
      ensures |metrics| == |old(metrics)| + 1 && metrics[..|old(metrics)|] == old(metrics) && fresh(metrics[|old(metrics)|])
    {
      var m := new Metric(name);
      metrics := metrics + [m];
      cache := cache + [Entry(name, [])];
    }

    /** A point appended to the metric at place `k`. */
    method Append(k: nat, p: PointNode)
      requires Valid() && k < |metrics| && |cache[k].samples| + 1 < MAX_POINTS
      requires p.next == null && p.owner == null
      modifies this`cache, this`nodes, metrics[k], p, metrics[k].nodes
      ensures Valid()
      ensures cache == old(cache)[k := Entry(old(cache)[k].name, old(cache)[k].samples + [Point(p.timestamp, p.value)])]
    {
      var m := metrics[k];
      assert m.StandsFor(cache[k], nodes);
      forall i | 0 <= i < |metrics| && i != k ensures metrics[i] != m && forall n <- metrics[i].nodes :: n !in m.nodes && n != p {
        assert metrics[i].StandsFor(cache[i], nodes);
      }
      m.Add(p);
      nodes := nodes + {p};
      cache := cache[k := Entry(m.name, m.samples)];
      forall i | 0 <= i < |metrics| ensures metrics[i].StandsFor(cache[i], nodes) {
        assert old(metrics[i].StandsFor(cache[i], nodes));
      }
    }

    /** A parsed line or a monitoring report: the metric is found or created, and the point appended. */
    method Arrive(name: string, timestamp: int, value: real)
      requires Valid() && |Cached(cache, name)| + 1 < MAX_POINTS
      modifies this, metrics, nodes
      ensures Valid()
      ensures cache == CacheSpec.Arrive(old(cache), name, Point(timestamp, value))
    {
      var k := Get(name);
      if k == |metrics| {
        AddMetric(name);
      }
      assert metrics[k].StandsFor(cache[k], nodes);
      var p := new PointNode(timestamp, value);
      Append(k, p);
      CreateAndAppend(old(cache), name, Point(timestamp, value));
    }

    /** `find_largest_metric`: the first metric with the most points, none exactly when all are empty. */
    method FindLargest() returns (max: Option<nat>)
      requires Valid()
      ensures max == Largest(cache, |cache|)
    {
      var maxPoints := 0;
      max := None;
      for i := 0 to |metrics|
        invariant max == Largest(cache, i)
        invariant maxPoints == if max.None? then 0 else |cache[max.value].samples|
      {
        assert metrics[i].StandsFor(cache[i], nodes);
        if metrics[i].nbPoints > maxPoints {
          max, maxPoints := Some(i), metrics[i].nbPoints;
        }
      }
    }

    /** The metric at place `k` is written out. */
    method WriteAt(k: nat) returns (batch: Entry)
      requires Valid() && k < |metrics|
      modifies this`cache, metrics[k]
      ensures Valid()
      ensures batch == old(cache)[k] && cache == Emptied(old(cache), k)
    {
      var m := metrics[k];
      assert m.StandsFor(cache[k], nodes);
      forall i | 0 <= i < |metrics| && i != k ensures metrics[i] != m {
        assert metrics[i].StandsFor(cache[i], nodes);
      }
      EmptiedUnique(cache, k);
      var written := m.WriteOut();
      batch := Entry(m.name, written);
      cache := Emptied(cache, k);
      forall i | 0 <= i < |metrics| ensures metrics[i].StandsFor(cache[i], nodes) {
        assert old(metrics[i].StandsFor(cache[i], nodes));
      }
    }

    /** The writer's loop with nothing arriving, up to its first sleep. */
    method Drain() returns (batches: seq<Entry>)
      requires Valid()
      modifies this`cache, metrics
      ensures Valid()
      ensures batches == Batches(old(cache))
      ensures Nonempty(cache) == 0
    {
      batches := [];
      var max := FindLargest();
      while max.Some?
        invariant Valid() && max == Largest(cache, |cache|)
        invariant batches + Batches(cache) == Batches(old(cache))
        decreases Nonempty(cache)
      {
        BatchesStep(cache, batches);
        var batch := WriteAt(max.value);
        batches := batches + [batch];
        max := FindLargest();
      }
      LargestIs(cache, |cache|);
      NonemptyZero(cache);
    }
  }
}
