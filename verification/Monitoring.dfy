/** The shared counter of slot writes: incremented by the writer, reported and reset by the monitoring thread. */
module Monitoring {
  import opened Words

  /** `monitoring_metrics_t`; each method is one critical section under `mutex_points`. */
  class Counter {
    var points: Word32
    /** Slot writes since the last report, slot writes before it, and the sum of all reported values. */
    ghost var pending: nat
    ghost var settled: nat
    ghost var reported: nat

    /** All slot writes made so far. */
    ghost function Written(): nat
      reads this
    {
      settled + pending
    }

    /**
     * The 32-bit counter holds the pending writes, and reports account for the
     * earlier ones, up to whole turns of the counter.
     */
    ghost predicate Valid()
      reads this
    {
      && points == pending % U32
      && reported <= settled && (settled - reported) % U32 == 0
    }

    constructor ()
      ensures Valid() && points == 0 && Written() == 0 && reported == 0
    {
      points, pending, settled, reported := 0, 0, 0, 0;
    }

    /** After a slot write (src/whisper.c:681-684). */
    method CountWrite()
      requires Valid()
      modifies this
      ensures Valid()
      ensures pending == old(pending) + 1 && settled == old(settled) && reported == old(reported)
    {
      points := Add32(points, 1);
      pending := pending + 1;
    }

    /** The value reported as `carbond.points` (src/monitoring.c:66-69): the counter, which restarts at 0. */
    method Report() returns (value: Word32)
      requires Valid()
      modifies this
      ensures Valid() && points == 0
      ensures reported == old(reported) + value && Written() == old(Written())
      ensures old(pending) < U32 ==> settled - reported == old(settled - reported)
    {
      value := points;
      reported := reported + points;
      points := 0;
      settled := settled + pending;
      pending := 0;
    }
  }

  /** Events at the counter, in the order the mutex lets them through. */
  datatype Event = SlotWrite | Report

  function WritesIn(events: seq<Event>): nat {
    if events == [] then 0
    else WritesIn(events[..|events| - 1]) + (if events[|events| - 1].SlotWrite? then 1 else 0)
  }

  /** The counter after the events, and the values reported on the way. */
  function Play(events: seq<Event>): (r: (Word32, seq<Word32>)) {
    if events == [] then (0, [])
    else
      var (points, values) := Play(events[..|events| - 1]);
      match events[|events| - 1]
      case SlotWrite => (Add32(points, 1), values)
      case Report => (0, values + [points])
  }

  function Sum(values: seq<Word32>): nat {
    if values == [] then 0 else Sum(values[..|values| - 1]) + values[|values| - 1] as int
  }

  /** The longest stretch of slot writes without a report fits the counter. */
  ghost predicate NeverOverflows(events: seq<Event>) {
    events == [] ||
    (NeverOverflows(events[..|events| - 1]) &&
     (events[|events| - 1].SlotWrite? ==> Play(events[..|events| - 1]).0 < U32 - 1))
  }

  /**
   * Counter conservation: reports and counter together make up the slot writes
   * up to whole turns of the counter, and exactly if it never overflows.
   */
  lemma {:induction false} CounterConserved(events: seq<Event>)
    ensures Sum(Play(events).1) + Play(events).0 <= WritesIn(events)
    ensures (WritesIn(events) - Sum(Play(events).1) - Play(events).0) % U32 == 0
    ensures NeverOverflows(events) <==> Sum(Play(events).1) + Play(events).0 == WritesIn(events)
  {
    if events != [] {
      var before := events[..|events| - 1];
      CounterConserved(before);
      var (points, values) := Play(before);
      assert (values + [points])[..|values|] == values;
    }
  }

  function ReportsIn(events: seq<Event>): nat {
    if events == [] then 0
    else ReportsIn(events[..|events| - 1]) + if events[|events| - 1].Report? then 1 else 0
  }

  /** Every report reports one value. */
  lemma {:induction false} OneValuePerReport(events: seq<Event>)
    ensures |Play(events).1| == ReportsIn(events)
  {
    if events != [] {
      OneValuePerReport(events[..|events| - 1]);
    }
  }

  /** Slot writes after a report, or from the start on, count up from 0. */
  lemma {:induction false} WritesCount(before: seq<Event>, n: nat)
    requires before == [] || before[|before| - 1] == Report
    ensures Play(before + seq(n, _ => SlotWrite)) == (n % U32, Play(before).1)
  {
    var events := before + seq(n, _ => SlotWrite);
    if n == 0 {
      assert events == before;
    } else {
      assert events[..|events| - 1] == before + seq(n - 1, _ => SlotWrite);
      assert events[|events| - 1] == SlotWrite;
      WritesCount(before, n - 1);
      OneMore32(n);
    }
  }

  lemma OneMore32(n: nat)
    requires 0 < n
    ensures Add32((n - 1) % U32, 1) == n % U32
  {
  }

  /** What a report reports is the number of slot writes since the one before it, in 32 bits. */
  lemma {:induction false} ReportIs(before: seq<Event>, n: nat)
    requires before == [] || before[|before| - 1] == Report
    ensures Play(before + seq(n, _ => SlotWrite) + [Report]) == (0, Play(before).1 + [n % U32])
  {
    var events := before + seq(n, _ => SlotWrite);
    assert (events + [Report])[..|events|] == events;
    WritesCount(before, n);
  }
}
