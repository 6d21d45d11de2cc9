/**
 * Pausing the worker threads around a configuration reload, as a transition
 * system over any number of workers.  A worker runs its loop holding its
 * `run_lock` and gives it up only inside `pthread_cond_wait`; the controller
 * orders every worker to pause, takes every lock, swaps the configuration, then
 * clears, signals and unlocks worker by worker.
 */
module PauseProtocol {

  /** Where a worker stands in its loop; in its body it uses configuration number `conf`. */
  datatype Pc = Starting | Checking | Testing | Asleep | Waking | Body(conf: nat) | Exited

  datatype Owner = Free | ByWorker | ByController

  /** One `carbon_thread_t`: program counter, `must_pause`, and who holds `run_lock`. */
  datatype Worker = Worker(pc: Pc, mustPause: bool, lock: Owner)

  /** Where the controller stands in `conf_reload`, with the worker it is at. */
  datatype Controller =
    | Idle
    | Ordering(i: nat)
    | Locking(i: nat)
    | Swapping
    | Clearing(i: nat)
    | Signalling(i: nat)
    | Unlocking(i: nat)

  /** The whole system; `conf` numbers the current configuration and `run` is its flag. */
  datatype State = State(workers: seq<Worker>, controller: Controller, conf: nat, run: bool)

  /** What can happen next: a worker moves or wakes spuriously, the controller moves, or a signal arrives. */
  datatype Step = WorkerMoves(i: nat) | WakesSpuriously(i: nat) | ControllerMoves | Reload | Stop

  ghost predicate Initial(s: State) {
    && s.workers != [] && s.controller == Idle && s.run
    && (forall i :: 0 <= i < |s.workers| ==> s.workers[i] == Worker(Starting, false, Free))
  }

  /** Any number of workers can be started. */
  lemma StartExists(n: nat, conf: nat)
    requires 0 < n
    ensures Initial(State(seq(n, _ => Worker(Starting, false, Free)), Idle, conf, true))
  {
  }

  /** Each step that is possible; acquiring a lock waits until it is free. */
  predicate Enabled(s: State, step: Step) {
    match step
    case WorkerMoves(i) =>
      i < |s.workers| &&
      (match s.workers[i].pc
       case Starting => s.workers[i].lock == Free
       case Waking => s.workers[i].lock == Free
       case Asleep => false
       case Exited => false
       case _ => true)
    case WakesSpuriously(i) => i < |s.workers| && s.workers[i].pc == Asleep
    case ControllerMoves =>
      (match s.controller
       case Idle => false
       case Locking(i) => i < |s.workers| && s.workers[i].lock == Free
       case Swapping => true
       case _ => s.controller.i < |s.workers|)
    case Reload => s.controller == Idle
    case Stop => s.controller == Idle
  }

  /** A worker's next step: the loop tests `run`, then `must_pause` once, then runs its body. */
  function MoveWorker(w: Worker, conf: nat, run: bool): Worker {
    match w.pc
    case Starting => w.(pc := Checking, lock := ByWorker)
    case Checking => if run then w.(pc := Testing) else w.(pc := Exited)
    case Testing => if w.mustPause then w.(pc := Asleep, lock := Free) else w.(pc := Body(conf))
    case Waking => w.(pc := Body(conf), lock := ByWorker)
    case Body(_) => w.(pc := Checking)
    case _ => w
  }

  function MoveController(s: State): State
    requires Enabled(s, ControllerMoves)
  {
    var n := |s.workers|;
    match s.controller
    case Ordering(i) =>
      s.(workers := s.workers[i := s.workers[i].(mustPause := true)],
         controller := if i + 1 < n then Ordering(i + 1) else Locking(0))
    case Locking(i) =>
      s.(workers := s.workers[i := s.workers[i].(lock := ByController)],
         controller := if i + 1 < n then Locking(i + 1) else Swapping)
    case Swapping => s.(conf := s.conf + 1, controller := Clearing(0))
    case Clearing(i) => s.(workers := s.workers[i := s.workers[i].(mustPause := false)], controller := Signalling(i))
    case Signalling(i) =>
      var w := s.workers[i];
      s.(workers := s.workers[i := if w.pc == Asleep then w.(pc := Waking) else w], controller := Unlocking(i))
    case Unlocking(i) =>
      s.(workers := s.workers[i := s.workers[i].(lock := Free)],
         controller := if i + 1 < n then Clearing(i + 1) else Idle)
    case Idle => s
  }

  function Next(s: State, step: Step): State
    requires Enabled(s, step)
  {
    match step
    case WorkerMoves(i) => s.(workers := s.workers[i := MoveWorker(s.workers[i], s.conf, s.run)])
    case WakesSpuriously(i) => s.(workers := s.workers[i := s.workers[i].(pc := Waking)])
    case ControllerMoves => MoveController(s)
    case Reload => s.(controller := Ordering(0))
    case Stop => s.(run := false)
  }

  /** The steps can be taken one after the other. */
  predicate CanRun(s: State, steps: seq<Step>)
    decreases |steps|
  {
    steps == [] || (Enabled(s, steps[0]) && CanRun(Next(s, steps[0]), steps[1..]))
  }

  function Run(s: State, steps: seq<Step>): State
    requires CanRun(s, steps)
    decreases |steps|
  {
    if steps == [] then s else Run(Next(s, steps[0]), steps[1..])
  }

  // What every step keeps.

  /** The worker holds its lock exactly from acquiring it to waiting for the signal, or for ever once it left its loop. */
  predicate Inside(pc: Pc) {
    pc.Checking? || pc.Testing? || pc.Body? || pc.Exited?
  }

  /** The controller holds the lock of worker `i`: from taking it to releasing it. */
  predicate Held(c: Controller, i: int) {
    match c
    case Locking(j) => i < j
    case Swapping => true
    case Clearing(j) => j <= i
    case Signalling(j) => j <= i
    case Unlocking(j) => j <= i
    case _ => false
  }

  /** Worker `i` is under orders to pause. */
  predicate Ordered(c: Controller, i: int) {
    match c
    case Idle => false
    case Ordering(j) => i < j
    case Clearing(j) => j <= i
    case Signalling(j) => j < i
    case Unlocking(j) => j < i
    case _ => true
  }

  predicate WorkerInv(w: Worker, c: Controller, i: int, conf: nat) {
    && (w.lock == ByWorker <==> Inside(w.pc))
    && (w.lock == ByController <==> Held(c, i))
    && (w.mustPause <==> Ordered(c, i))
    && (w.pc == Asleep ==> w.mustPause || (c.Signalling? && c.i == i))
    && (w.pc.Body? ==> w.pc.conf == conf)
  }

  predicate InPlace(c: Controller, n: nat) {
    c.Idle? || c.Swapping? || c.i < n
  }

  ghost predicate Inv(s: State) {
    && s.workers != [] && InPlace(s.controller, |s.workers|)
    && (forall i :: 0 <= i < |s.workers| ==> WorkerInv(s.workers[i], s.controller, i, s.conf))
  }

  lemma ControllerKeepsInv(s: State)
    requires Inv(s) && Enabled(s, ControllerMoves)
    ensures Inv(MoveController(s))
  {
    var s' := MoveController(s);
    forall j | 0 <= j < |s.workers| ensures WorkerInv(s'.workers[j], s'.controller, j, s'.conf) {
      assert WorkerInv(s.workers[j], s.controller, j, s.conf);
    }
  }

  lemma StepKeepsInv(s: State, step: Step)
    requires Inv(s) && Enabled(s, step)
    ensures Inv(Next(s, step))
  {
    if step.ControllerMoves? {
      ControllerKeepsInv(s);
    } else {
      var s' := Next(s, step);
      forall j | 0 <= j < |s.workers| ensures WorkerInv(s'.workers[j], s'.controller, j, s'.conf) {
        assert WorkerInv(s.workers[j], s.controller, j, s.conf);
      }
    }
  }

  lemma {:induction false} RunKeepsInv(s: State, steps: seq<Step>)
    requires Inv(s) && CanRun(s, steps)
    ensures Inv(Run(s, steps)) && |Run(s, steps).workers| == |s.workers|
    decreases |steps|
  {
    if steps != [] {
      StepKeepsInv(s, steps[0]);
      RunKeepsInv(Next(s, steps[0]), steps[1..]);
    }
  }

  /** Every state reached from the start, by any steps in any order, satisfies the invariant. */
  lemma {:induction false} ReachableInv(s: State, steps: seq<Step>)
    requires Initial(s) && CanRun(s, steps)
    ensures Inv(Run(s, steps))
  {
    RunKeepsInv(s, steps);
  }

  // The properties.

  /** No lost wakeup: once the controller is idle again no worker is left waiting for a signal, spurious wakeups or not. */
  lemma {:induction false} NoLostWakeup(s: State, steps: seq<Step>, i: int)
    requires Initial(s) && CanRun(s, steps) && Run(s, steps).controller == Idle && 0 <= i < |s.workers|
    ensures |Run(s, steps).workers| == |s.workers|
    ensures var w := Run(s, steps).workers[i]; w.pc != Asleep && !w.mustPause
  {
    RunKeepsInv(s, steps);
    assert WorkerInv(Run(s, steps).workers[i], Run(s, steps).controller, i, Run(s, steps).conf);
  }

  /** Pause safety: while the controller holds a worker's lock the worker is not in its loop; at the swap none is. */
  lemma {:induction false} PauseSafety(s: State, steps: seq<Step>, i: int)
    requires Initial(s) && CanRun(s, steps) && 0 <= i < |s.workers|
    ensures |Run(s, steps).workers| == |s.workers|
    ensures Held(Run(s, steps).controller, i) ==> !Inside(Run(s, steps).workers[i].pc)
    ensures Run(s, steps).controller == Swapping ==> !Inside(Run(s, steps).workers[i].pc)
  {
    RunKeepsInv(s, steps);
    assert WorkerInv(Run(s, steps).workers[i], Run(s, steps).controller, i, Run(s, steps).conf);
  }

  /** A worker's body only ever runs under the current configuration, so a freed one is never in use. */
  lemma {:induction false} OneConfigurationPerBody(s: State, steps: seq<Step>, i: int)
    requires Initial(s) && CanRun(s, steps) && 0 <= i < |s.workers|
    ensures |Run(s, steps).workers| == |s.workers|
    ensures var w := Run(s, steps).workers[i]; w.pc.Body? ==> w.pc.conf == Run(s, steps).conf
  {
    RunKeepsInv(s, steps);
    assert WorkerInv(Run(s, steps).workers[i], Run(s, steps).controller, i, Run(s, steps).conf);
  }

  // What a reload does to the configuration.

  /** Of a run's steps, those by which the controller swaps the configuration. */
  function Swaps(s: State, steps: seq<Step>): nat
    requires CanRun(s, steps)
    decreases |steps|
  {
    if steps == [] then 0
    else (if steps[0] == ControllerMoves && s.controller == Swapping then 1 else 0) + Swaps(Next(s, steps[0]), steps[1..])
  }

  function Reloads(steps: seq<Step>): nat {
    if steps == [] then 0 else (if steps[0] == Reload then 1 else 0) + Reloads(steps[1..])
  }

  /** A reload is under way and has not swapped yet. */
  predicate BeforeSwap(c: Controller) { c.Ordering? || c.Locking? || c.Swapping? }

  /** A new configuration is installed by every swap and by nothing else. */
  lemma {:induction false} SwapsInstall(s: State, steps: seq<Step>)
    requires CanRun(s, steps)
    ensures Run(s, steps).conf == s.conf + Swaps(s, steps)
    decreases |steps|
  {
    if steps != [] {
      SwapsInstall(Next(s, steps[0]), steps[1..]);
    }
  }

  /** Every reload swaps once, those still before their swap excepted. */
  lemma {:induction false} ReloadsSwapOnce(s: State, steps: seq<Step>)
    requires CanRun(s, steps)
    ensures Reloads(steps) + (if BeforeSwap(s.controller) then 1 else 0)
         == Swaps(s, steps) + if BeforeSwap(Run(s, steps).controller) then 1 else 0
    decreases |steps|
  {
    if steps != [] {
      ReloadsSwapOnce(Next(s, steps[0]), steps[1..]);
    }
  }

  /**
   * From the start, with the controller idle again, there have been as many new
   * configurations as reloads.
   */
  lemma {:induction false} ReloadsInstall(s: State, steps: seq<Step>)
    requires Initial(s) && CanRun(s, steps) && Run(s, steps).controller == Idle
    ensures Run(s, steps).conf == s.conf + Reloads(steps)
  {
    SwapsInstall(s, steps);
    ReloadsSwapOnce(s, steps);
  }

  /** Two loop bodies, of one worker or two, run under the same configuration exactly if no swap came between them. */
  lemma {:induction false} SameConfigurationExactlyWhen(s: State, steps: seq<Step>, more: seq<Step>, i: int, j: int)
    requires Initial(s) && CanRun(s, steps) && CanRun(Run(s, steps), more)
    requires 0 <= i < |s.workers| == |Run(s, steps).workers| == |Run(Run(s, steps), more).workers| && 0 <= j < |s.workers|
    requires Run(s, steps).workers[i].pc.Body? && Run(Run(s, steps), more).workers[j].pc.Body?
    ensures var first, second := Run(s, steps).workers[i].pc.conf, Run(Run(s, steps), more).workers[j].pc.conf;
            first <= second && (first == second <==> Swaps(Run(s, steps), more) == 0)
  {
    var s1 := Run(s, steps);
    var s2 := Run(s1, more);
    RunKeepsInv(s, steps);
    RunKeepsInv(s1, more);
    SwapsInstall(s1, more);
    assert WorkerInv(s1.workers[i], s1.controller, i, s1.conf) && WorkerInv(s2.workers[j], s2.controller, j, s2.conf);
  }

  // What a worker can do.

  /** One round of a worker that is not ordered to pause: the flag, the order, the body under the current configuration. */
  lemma WorkerRound(w: Worker, conf: nat, run: bool)
    requires w.pc.Body? && w.lock == ByWorker
    ensures var w1 := MoveWorker(w, conf, run);
            var w2 := MoveWorker(w1, conf, run);
            var w3 := MoveWorker(w2, conf, run);
            if !run then w2 == w.(pc := Exited)
            else if w.mustPause then w3 == w.(pc := Asleep, lock := Free)
            else w3 == w.(pc := Body(conf))
  {
  }

  /**
   * From every start: a worker that was ordered to pause wakes spuriously and,
   * since the order is tested once, runs its body under orders.
   */
  lemma {:induction false} SpuriousBody(s: State)
    requires Initial(s)
    ensures var steps := [WorkerMoves(0), WorkerMoves(0), Reload, ControllerMoves, WorkerMoves(0), WakesSpuriously(0),
                          WorkerMoves(0)];
            && CanRun(s, steps)
            && Run(s, steps).workers == s.workers[0 := Worker(Body(s.conf), true, ByWorker)]
            && BeforeSwap(Run(s, steps).controller)
  {
    var s1 := Next(Next(s, WorkerMoves(0)), WorkerMoves(0));
    var s2 := Next(Next(s1, Reload), ControllerMoves);
    assert s2.workers == s.workers[0 := Worker(Testing, true, ByWorker)];
    assert [WorkerMoves(0), WorkerMoves(0)] + [Reload, ControllerMoves, WorkerMoves(0), WakesSpuriously(0), WorkerMoves(0)]
        == [WorkerMoves(0), WorkerMoves(0), Reload, ControllerMoves, WorkerMoves(0), WakesSpuriously(0), WorkerMoves(0)];
    assert [Reload, ControllerMoves] + [WorkerMoves(0), WakesSpuriously(0), WorkerMoves(0)]
        == [Reload, ControllerMoves, WorkerMoves(0), WakesSpuriously(0), WorkerMoves(0)];
    assert [WorkerMoves(0), WakesSpuriously(0)] + [WorkerMoves(0)] == [WorkerMoves(0), WakesSpuriously(0), WorkerMoves(0)];
    TwoSteps(s, WorkerMoves(0), WorkerMoves(0), [Reload, ControllerMoves, WorkerMoves(0), WakesSpuriously(0), WorkerMoves(0)]);
    TwoSteps(s1, Reload, ControllerMoves, [WorkerMoves(0), WakesSpuriously(0), WorkerMoves(0)]);
    TwoSteps(s2, WorkerMoves(0), WakesSpuriously(0), [WorkerMoves(0)]);
    OneStep(Next(Next(s2, WorkerMoves(0)), WakesSpuriously(0)), WorkerMoves(0));
  }

  lemma {:induction false} OneStep(s: State, a: Step)
    ensures CanRun(s, [a]) <==> Enabled(s, a)
    ensures Enabled(s, a) ==> Run(s, [a]) == Next(s, a)
  {
    var steps := [a];
    assert steps[1..] == [];
  }

  lemma {:induction false} TwoSteps(s: State, a: Step, b: Step, rest: seq<Step>)
    requires Enabled(s, a) && Enabled(Next(s, a), b)
    ensures CanRun(s, [a, b] + rest) <==> CanRun(Next(Next(s, a), b), rest)
    ensures CanRun(s, [a, b] + rest) ==> Run(s, [a, b] + rest) == Run(Next(Next(s, a), b), rest)
  {
    var steps := [a, b] + rest;
    assert steps[1..] == [b] + rest && steps[1..][1..] == rest;
  }

  lemma {:induction false} RunAppend(s: State, steps: seq<Step>, more: seq<Step>)
    requires CanRun(s, steps) && CanRun(Run(s, steps), more)
    ensures CanRun(s, steps + more) && Run(s, steps + more) == Run(Run(s, steps), more)
    decreases |steps|
  {
    if steps == [] {
      assert steps + more == more;
    } else {
      RunAppend(Next(s, steps[0]), steps[1..], more);
      assert (steps + more)[1..] == steps[1..] + more;
    }
  }

  // Progress.

  ghost predicate NoneExited(s: State) {
    forall i :: 0 <= i < |s.workers| ==> s.workers[i].pc != Exited
  }

  /** With the controller idle every worker in its loop can move. */
  lemma IdleWorkersMove(s: State, i: nat)
    requires Inv(s) && s.controller == Idle && i < |s.workers| && s.workers[i].pc != Exited
    ensures Enabled(s, WorkerMoves(i))
  {
    assert WorkerInv(s.workers[i], s.controller, i, s.conf);
  }

  /** The controller is only ever kept waiting for a lock, and then by a worker that can move. */
  lemma NoDeadlock(s: State)
    requires Inv(s) && NoneExited(s)
    ensures s.controller == Idle || Enabled(s, ControllerMoves)
         || (s.controller.Locking? && Enabled(s, WorkerMoves(s.controller.i)))
  {
    if s.controller.Locking? {
      var i := s.controller.i;
      assert WorkerInv(s.workers[i], s.controller, i, s.conf);
    }
  }

  /** Steps a worker under orders can still take before it sleeps. */
  function Rank(pc: Pc): nat {
    match pc
    case Waking => 4
    case Body(_) => 3
    case Starting => 3
    case Checking => 2
    case Testing => 1
    case _ => 0
  }

  function TotalRank(ws: seq<Worker>): (n: nat)
    ensures n <= 4 * |ws|
  {
    if ws == [] then 0 else TotalRank(ws[..|ws| - 1]) + Rank(ws[|ws| - 1].pc)
  }

  lemma {:induction false} RankUpdate(ws: seq<Worker>, i: int, w: Worker)
    requires 0 <= i < |ws|
    ensures TotalRank(ws[i := w]) == TotalRank(ws) - Rank(ws[i].pc) + Rank(w.pc)
  {
    var before := ws[..|ws| - 1];
    if i < |ws| - 1 {
      RankUpdate(before, i, w);
      assert ws[i := w][..|ws| - 1] == before[i := w];
    } else {
      assert ws[i := w][..|ws| - 1] == before;
    }
  }

  /** Steps left until the controller has every lock. */
  function Measure(s: State): nat
    requires s.controller.Locking? && s.controller.i < |s.workers|
  {
    TotalRank(s.workers) + |s.workers| - s.controller.i
  }

  /** While the controller collects locks every step brings it nearer, but for spurious wakeups, which cost four steps. */
  lemma PauseProgress(s: State, step: Step)
    requires Inv(s) && s.controller.Locking? && s.run && Enabled(s, step)
    ensures var s' := Next(s, step);
            s'.run && (s'.controller == Swapping ||
                       (s'.controller.Locking? && s'.controller.i < |s'.workers| &&
                        Measure(s') <= Measure(s) + if step.WakesSpuriously? then 4 else -1))
  {
    StepKeepsInv(s, step);
    if step.WorkerMoves? {
      assert WorkerInv(s.workers[step.i], s.controller, step.i, s.conf);
      RankUpdate(s.workers, step.i, MoveWorker(s.workers[step.i], s.conf, s.run));
    } else if step.WakesSpuriously? {
      RankUpdate(s.workers, step.i, s.workers[step.i].(pc := Waking));
    } else {
      var i := s.controller.i;
      RankUpdate(s.workers, i, s.workers[i].(lock := ByController));
    }
  }

  /** Spurious wakeups among the steps. */
  function Spurious(steps: seq<Step>): nat {
    if steps == [] then 0 else (if steps[0].WakesSpuriously? then 1 else 0) + Spurious(steps[1..])
  }

  /**
   * Pause completes: whatever the scheduling, after at most five steps per
   * worker and per spurious wakeup the controller has every lock.
   */
  lemma {:induction false} PauseCompletes(s: State, steps: seq<Step>)
    requires Inv(s) && s.controller.Locking? && s.run && CanRun(s, steps)
    requires |steps| > Measure(s) + 5 * Spurious(steps)
    ensures Measure(s) <= 5 * |s.workers|
    ensures exists k :: 0 <= k <= |steps| && CanRun(s, steps[..k]) && Run(s, steps[..k]).controller == Swapping
    decreases |steps|
  {
    PauseProgress(s, steps[0]);
    StepKeepsInv(s, steps[0]);
    var s', rest := Next(s, steps[0]), steps[1..];
    if s'.controller == Swapping {
      RunOne(s, steps, 0);
      assert CanRun(s, steps[..1]) && Run(s, steps[..1]).controller == Swapping;
    } else {
      PauseCompletes(s', rest);
      var k :| 0 <= k <= |rest| && CanRun(s', rest[..k]) && Run(s', rest[..k]).controller == Swapping;
      RunOne(s, steps, k);
      assert CanRun(s, steps[..k + 1]) && Run(s, steps[..k + 1]).controller == Swapping;
    }
  }

  lemma {:induction false} RunOne(s: State, steps: seq<Step>, k: int)
    requires steps != [] && Enabled(s, steps[0]) && 0 <= k <= |steps| - 1 && CanRun(Next(s, steps[0]), steps[1..][..k])
    ensures CanRun(s, steps[..k + 1]) && Run(s, steps[..k + 1]) == Run(Next(s, steps[0]), steps[1..][..k])
  {
    assert steps[..k + 1][0] == steps[0] && steps[..k + 1][1..] == steps[1..][..k];
  }

  /** While the flag is on nobody leaves its loop. */
  lemma {:induction false} RunningKeepsAll(s: State, steps: seq<Step>)
    requires NoneExited(s) && CanRun(s, steps) && Run(s, steps).run
    ensures NoneExited(Run(s, steps)) && s.run
    decreases |steps|
  {
    if steps != [] {
      RunStays(Next(s, steps[0]), steps[1..]);
      RunningKeepsAll(Next(s, steps[0]), steps[1..]);
    }
  }

  /** The flag never comes back on. */
  lemma {:induction false} RunStays(s: State, steps: seq<Step>)
    requires CanRun(s, steps) && Run(s, steps).run
    ensures s.run
    decreases |steps|
  {
    if steps != [] {
      RunStays(Next(s, steps[0]), steps[1..]);
    }
  }

  /**
   * A pause never comes to a halt: whatever happened before, as long as the flag
   * is on and locks are collected, the controller or the worker it waits for can
   * move.  With `PauseCompletes`, every schedule can be carried on to the swap.
   */
  lemma {:induction false} PauseCanGoOn(s: State, steps: seq<Step>)
    requires Initial(s) && CanRun(s, steps) && Run(s, steps).run && Run(s, steps).controller.Locking?
    ensures Enabled(Run(s, steps), ControllerMoves)
         || Enabled(Run(s, steps), WorkerMoves(Run(s, steps).controller.i))
  {
    RunKeepsInv(s, steps);
    RunningKeepsAll(s, steps);
    NoDeadlock(Run(s, steps));
  }

  // Which states can still reach a swap.

  /** The worker is bound to leave its loop with its lock held, once the flag is off. */
  predicate Leaving(pc: Pc) {
    pc.Checking? || pc.Body?
  }

  /** Nobody has left its loop, and nobody is bound to. */
  ghost predicate Swappable(s: State) {
    NoneExited(s) && (s.run || forall i :: 0 <= i < |s.workers| ==> !Leaving(s.workers[i].pc))
  }

  /** What keeps a worker from ever pausing again. */
  predicate Stuck(w: Worker, run: bool) {
    w.pc == Exited || (!run && Leaving(w.pc))
  }

  lemma {:induction false} StuckForever(s: State, steps: seq<Step>, i: int)
    requires Inv(s) && CanRun(s, steps) && 0 <= i < |s.workers| && Stuck(s.workers[i], s.run)
    ensures |Run(s, steps).workers| == |s.workers| && Stuck(Run(s, steps).workers[i], Run(s, steps).run)
    decreases |steps|
  {
    if steps != [] {
      StepKeepsInv(s, steps[0]);
      StuckForever(Next(s, steps[0]), steps[1..], i);
    }
  }

  /** A stuck worker holds its lock, so no swap is reached. */
  lemma {:induction false} StuckBlocksReload(s: State, steps: seq<Step>, i: int)
    requires Inv(s) && CanRun(s, steps) && 0 <= i < |s.workers| && Stuck(s.workers[i], s.run)
    ensures Run(s, steps).controller != Swapping
  {
    StuckForever(s, steps, i);
    RunKeepsInv(s, steps);
    assert WorkerInv(Run(s, steps).workers[i], Run(s, steps).controller, i, Run(s, steps).conf);
  }

  /** The step that brings the next swap nearer: the controller's if it can move, else that of the worker it waits for. */
  function Nearer(s: State): Step {
    if s.controller == Idle then Reload
    else if s.controller.Locking? && !Enabled(s, ControllerMoves) then WorkerMoves(s.controller.i)
    else ControllerMoves
  }

  /** How many of those steps there are at most. */
  function Distance(s: State): nat
    requires InPlace(s.controller, |s.workers|)
  {
    var n := |s.workers|;
    match s.controller
    case Swapping => 0
    case Locking(_) => 1 + Measure(s)
    case Ordering(i) => 5 * n + 1 + (n - i)
    case Idle => 6 * n + 2
    case Clearing(i) => 6 * n + 2 + 3 * (n - i)
    case Signalling(i) => 6 * n + 1 + 3 * (n - i)
    case Unlocking(i) => 6 * n + 3 * (n - i)
  }

  lemma NearerIsNearer(s: State)
    requires Inv(s) && Swappable(s) && s.controller != Swapping
    ensures Enabled(s, Nearer(s)) && Inv(Next(s, Nearer(s))) && Swappable(Next(s, Nearer(s)))
    ensures Distance(Next(s, Nearer(s))) < Distance(s)
  {
    if s.controller.Locking? {
      var i := s.controller.i;
      assert WorkerInv(s.workers[i], s.controller, i, s.conf);
      RankUpdate(s.workers, i, MoveWorker(s.workers[i], s.conf, s.run));
      RankUpdate(s.workers, i, s.workers[i].(lock := ByController));
    }
    StepKeepsInv(s, Nearer(s));
  }

  lemma {:induction false} ScheduleToSwap(s: State) returns (steps: seq<Step>)
    requires Inv(s) && Swappable(s)
    ensures CanRun(s, steps) && Run(s, steps).controller == Swapping
    decreases Distance(s)
  {
    if s.controller == Swapping {
      steps := [];
    } else {
      NearerIsNearer(s);
      var rest := ScheduleToSwap(Next(s, Nearer(s)));
      steps := [Nearer(s)] + rest;
      assert steps[1..] == rest;
    }
  }

  /**
   * From any state, some schedule reaches a swap exactly if no worker has left
   * its loop and, once the flag is off, none is about to.
   */
  lemma {:induction false} SwapReachableExactlyWhen(s: State)
    requires Inv(s)
    ensures (exists steps :: CanRun(s, steps) && Run(s, steps).controller == Swapping) <==> Swappable(s)
  {
    if Swappable(s) {
      var steps := ScheduleToSwap(s);
    } else {
      var i :| 0 <= i < |s.workers| && Stuck(s.workers[i], s.run);
      forall steps | CanRun(s, steps) ensures Run(s, steps).controller != Swapping {
        StuckBlocksReload(s, steps, i);
      }
    }
  }

  /** From every start, a worker enters its loop, the flag goes off, the worker leaves, and a reload begins for nothing. */
  lemma {:induction false} ReloadAfterExit(s: State)
    requires Initial(s)
    ensures var steps := [WorkerMoves(0), Stop, WorkerMoves(0), Reload];
            && CanRun(s, steps) && Run(s, steps).controller == Ordering(0) && Run(s, steps).workers[0].pc == Exited
            && !Swappable(Run(s, steps))
  {
    var steps := [WorkerMoves(0), Stop, WorkerMoves(0), Reload];
    var s1 := Next(s, WorkerMoves(0));
    var s2 := Next(s1, Stop);
    var s3 := Next(s2, WorkerMoves(0));
    var s4 := Next(s3, Reload);
    assert steps[1..] == [Stop, WorkerMoves(0), Reload] && steps[1..][1..] == [WorkerMoves(0), Reload];
    assert steps[1..][1..][1..] == [Reload] && steps[1..][1..][1..][1..] == [];
    assert CanRun(s3, [Reload]) && Run(s3, [Reload]) == Run(s4, []);
    assert CanRun(s2, [WorkerMoves(0), Reload]);
  }
}
