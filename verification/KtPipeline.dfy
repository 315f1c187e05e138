/**
 ext/klib/kthread.c, kt_pipeline: every batch passes the steps in order, and the batches
 pass each step in the order of their indices. Mutex-protected stretches and the call of
 the step function are the atomic actions; any interleaving of them is a run.
 */
module KtPipeline {
  import opened Sums

  /** Where a worker is in its loop. */
  datatype Phase = Testing | Asleep | Working | Done

  datatype Worker = Worker(index: nat, step: nat, phase: Phase)

  /** What the step function observes: batch `index` starts `step`, or leaves it for the next one. */
  datatype Event = Start(index: nat, step: nat) | Pass(index: nat, step: nat)

  datatype State = State(workers: seq<Worker>, nextIndex: nat, nSteps: nat, log: seq<Event>)

  datatype Action =
    | Test(i: nat)                    // lock, look at the other workers, start or go to sleep
    | Finish(i: nat, hasData: bool)   // the step function returned; lock, update, broadcast
    | Wake(i: nat)                    // a wait may also end without a broadcast

  /** Another worker holds a smaller batch that is still at this step or before it. */
  predicate Blocked(ws: seq<Worker>, i: nat)
    requires i < |ws|
  {
    exists j :: 0 <= j < |ws| && Ahead(ws[j], ws[i]) && j != i
  }

  predicate Ahead(u: Worker, w: Worker) {
    u.step <= w.step && u.index < w.index
  }

  function Entered(w: Worker, nSteps: nat): Worker {
    w.(phase := if w.step < nSteps then Testing else Done)
  }

  function Init(nThreads: int, nSteps: nat): State {
    var n := if nThreads < 1 then 1 else nThreads;
    State(seq(n, i requires 0 <= i < n => Entered(Worker(i, 0, Testing), nSteps)), n, nSteps, [])
  }

  function Broadcast(ws: seq<Worker>): (r: seq<Worker>)
    ensures |r| == |ws|
    ensures forall i :: 0 <= i < |ws| ==> r[i] == if ws[i].phase.Asleep? then ws[i].(phase := Testing) else ws[i]
  {
    seq(|ws|, i requires 0 <= i < |ws| => if ws[i].phase.Asleep? then ws[i].(phase := Testing) else ws[i])
  }

  /** The step a worker goes to after `step`: the next one, the first one again, or past the end. */
  function NextStep(step: nat, nSteps: nat, hasData: bool): nat
    requires nSteps > 0
  {
    if step == nSteps - 1 || hasData then (step + 1) % nSteps else nSteps
  }

  predicate Enabled(s: State, a: Action) {
    && a.i < |s.workers|
    && match a
       case Test(i) => s.workers[i].phase.Testing?
       case Finish(i, hasData) => s.workers[i].phase.Working? && s.nSteps > 0
       case Wake(i) => s.workers[i].phase.Asleep?
  }

  /** What a worker writes about itself when its step function has returned. */
  function Advance(s: State, i: nat, hasData: bool): State
    requires i < |s.workers| && s.nSteps > 0
  {
    var w := s.workers[i];
    var step := NextStep(w.step, s.nSteps, hasData);
    var index := if step == 0 then s.nextIndex else w.index;
    s.(workers := s.workers[i := Entered(Worker(index, step, Testing), s.nSteps)],
       nextIndex := if step == 0 then s.nextIndex + 1 else s.nextIndex,
       log := if 0 < step < s.nSteps then s.log + [Pass(w.index, w.step)] else s.log)
  }

  function Next(s: State, a: Action): State
    requires Enabled(s, a)
  {
    var w := s.workers[a.i];
    match a
    case Test(i) =>
      if Blocked(s.workers, i) then
        s.(workers := s.workers[i := w.(phase := Asleep)])
      else
        s.(workers := s.workers[i := w.(phase := Working)], log := s.log + [Start(w.index, w.step)])
    case Finish(i, hasData) =>
      var t := Advance(s, i, hasData);
      t.(workers := Broadcast(t.workers))
    case Wake(i) =>
      s.(workers := s.workers[i := w.(phase := Testing)])
  }

  /** The state after a list of actions, if each was enabled. */
  ghost predicate Run(s: State, actions: seq<Action>, t: State)
    decreases |actions|
  {
    if actions == [] then s == t
    else Enabled(s, actions[0]) && Run(Next(s, actions[0]), actions[1..], t)
  }

  ghost predicate Reachable(nThreads: int, nSteps: nat, t: State) {
    exists actions :: Run(Init(nThreads, nSteps), actions, t)
  }

  // ---- the invariant ----------------------------------------------------------

  /** The worker still has to start step `step` for the batch it holds. */
  predicate Pending(w: Worker, step: nat) {
    w.step < step || (w.step == step && !w.phase.Working?)
  }

  /** Every worker holds its own batch. */
  ghost predicate OwnBatches(s: State) {
    var ws := s.workers;
    && (forall i :: 0 <= i < |ws| ==> ws[i].index < s.nextIndex && ws[i].step <= s.nSteps)
    && (forall i :: 0 <= i < |ws| ==> (ws[i].phase.Done? <==> ws[i].step == s.nSteps))
    && (forall i, j :: 0 <= i < |ws| && 0 <= j < |ws| && i != j ==> ws[i].index != ws[j].index)
  }

  ghost predicate InOrder(s: State) {
    var ws := s.workers;
    forall i, j :: 0 <= i < |ws| && 0 <= j < |ws| && ws[j].index < ws[i].index ==> Behind(ws[i], ws[j], s.nSteps)
  }

  /** Worker `u` holds a smaller batch than `w`: it is past the step `w` works on, and not behind the step `w` waits for. */
  predicate Behind(w: Worker, u: Worker, nSteps: nat) {
    && (w.phase.Working? ==> u.step > w.step)
    && (0 < w.step < nSteps ==> u.step >= w.step)
  }

  /** No worker sleeps without a reason to. */
  ghost predicate SleepersBlocked(s: State) {
    forall i :: 0 <= i < |s.workers| && s.workers[i].phase.Asleep? ==> Blocked(s.workers, i)
  }

  /** A batch that has started a step is smaller than every batch that still has to. */
  ghost predicate StartedFirst(s: State) {
    && (forall k: nat, st: nat :: Start(k, st) in s.log ==> k < s.nextIndex && st < s.nSteps)
    && (forall k: nat, st: nat, i :: Start(k, st) in s.log && 0 <= i < |s.workers| && Pending(s.workers[i], st) && s.workers[i].step < s.nSteps
          ==> k < s.workers[i].index)
  }

  /** A step is started only by a batch that passed the step before it, and a batch passes only what it started. */
  ghost predicate Causal(s: State) {
    var ws := s.workers;
    && (forall k: nat, st: nat :: Pass(k, st) in s.log ==> st + 1 < s.nSteps && Start(k, st) in s.log)
    && (forall k: nat, st: nat :: Start(k, st) in s.log && st > 0 ==> Pass(k, st - 1) in s.log)
    && (forall i :: 0 <= i < |ws| && ws[i].phase.Working? ==> Start(ws[i].index, ws[i].step) in s.log)
    && (forall i :: 0 <= i < |ws| && 0 < ws[i].step < s.nSteps ==> Pass(ws[i].index, ws[i].step - 1) in s.log)
  }

  /** What has passed a step has started the next one or is held by a worker about to; likewise for new batches. */
  ghost predicate NothingLost(s: State) {
    && (forall k: nat, st: nat :: Pass(k, st) in s.log ==> Start(k, st + 1) in s.log || Held(s, k, st + 1))
    && (s.nSteps > 0 ==> forall k: nat :: k < s.nextIndex ==> Start(k, 0) in s.log || Held(s, k, 0))
  }

  ghost predicate Held(s: State, k: nat, st: nat) {
    exists i :: 0 <= i < |s.workers| && Holds(s.workers[i], k, st)
  }

  predicate Holds(w: Worker, k: nat, st: nat) {
    w.index == k && w.step == st && !w.phase.Working?
  }

  /** For every step, the batches start it in strictly increasing order of their indices. */
  ghost predicate Increasing(log: seq<Event>) {
    forall a, b :: 0 <= a < b < |log| && log[a].Start? && log[b].Start? && log[a].step == log[b].step ==> log[a].index < log[b].index
  }

  ghost predicate Inv(s: State) {
    OwnBatches(s) && InOrder(s) && SleepersBlocked(s) && StartedFirst(s) && Causal(s) && NothingLost(s) && Increasing(s.log)
  }

  lemma InvInit(nThreads: int, nSteps: nat)
    ensures Inv(Init(nThreads, nSteps))
  {
    var s := Init(nThreads, nSteps);
    forall k: nat | nSteps > 0 && k < s.nextIndex
      ensures Held(s, k, 0)
    {
      assert Holds(s.workers[k], k, 0);
    }
  }

  // ---- every action keeps it --------------------------------------------------

  /** The two states differ at most in which workers sleep and which test. */
  ghost predicate SameButSleep(s: State, t: State) {
    && t.nextIndex == s.nextIndex && t.nSteps == s.nSteps && t.log == s.log && |t.workers| == |s.workers|
    && forall i :: 0 <= i < |s.workers| ==> SameWorker(s.workers[i], t.workers[i])
  }

  predicate SameWorker(w: Worker, u: Worker) {
    && u.index == w.index && u.step == w.step
    && (u.phase.Working? <==> w.phase.Working?) && (u.phase.Done? <==> w.phase.Done?)
  }

  lemma SleepIrrelevant(s: State, t: State)
    requires SameButSleep(s, t)
    requires OwnBatches(s) && InOrder(s) && StartedFirst(s) && Causal(s) && NothingLost(s)
    ensures OwnBatches(t) && InOrder(t) && StartedFirst(t) && Causal(t) && NothingLost(t)
  {
    SleepIrrelevantOrder(s, t);
    SleepIrrelevantLog(s, t);
  }

  lemma SleepIrrelevantOrder(s: State, t: State)
    requires SameButSleep(s, t) && OwnBatches(s) && InOrder(s)
    ensures OwnBatches(t) && InOrder(t)
  {
    assert forall i :: 0 <= i < |s.workers| ==> SameWorker(s.workers[i], t.workers[i]);
  }

  lemma SleepIrrelevantLog(s: State, t: State)
    requires SameButSleep(s, t) && StartedFirst(s) && Causal(s) && NothingLost(s)
    ensures StartedFirst(t) && Causal(t) && NothingLost(t)
  {
    SleepIrrelevantHeld(s, t);
    assert forall i :: 0 <= i < |s.workers| ==> SameWorker(s.workers[i], t.workers[i]);
    assert forall i, st: nat :: 0 <= i < |s.workers| ==> Pending(t.workers[i], st) == Pending(s.workers[i], st);
  }

  lemma SleepIrrelevantHeld(s: State, t: State)
    requires SameButSleep(s, t)
    ensures forall k: nat, st: nat :: Held(s, k, st) ==> Held(t, k, st)
  {
    forall k: nat, st: nat | Held(s, k, st)
      ensures Held(t, k, st)
    {
      var i :| 0 <= i < |s.workers| && Holds(s.workers[i], k, st);
      assert Holds(t.workers[i], k, st);
    }
  }

  /** What a successful test changes. */
  function Begin(s: State, i: nat): State
    requires i < |s.workers|
  {
    var w := s.workers[i];
    s.(workers := s.workers[i := w.(phase := Working)], log := s.log + [Start(w.index, w.step)])
  }

  lemma BeginOrdered(s: State, i: nat)
    requires Inv(s) && i < |s.workers| && s.workers[i].phase.Testing? && !Blocked(s.workers, i)
    ensures OwnBatches(Begin(s, i)) && InOrder(Begin(s, i))
  {
    hide StartedFirst, Causal, NothingLost, Increasing;
    var ws := s.workers;
    forall j | 0 <= j < |ws| && ws[j].index < ws[i].index
      ensures ws[j].step > ws[i].step
    {
      assert !Ahead(ws[j], ws[i]);
    }
  }

  /** The batch that begins is larger than all that began the step and smaller than all that still have to. */
  lemma BeginBetween(s: State, i: nat)
    requires OwnBatches(s) && StartedFirst(s)
    requires i < |s.workers| && s.workers[i].phase.Testing? && !Blocked(s.workers, i)
    ensures forall j :: 0 <= j < |s.workers| && j != i && Pending(s.workers[j], s.workers[i].step) ==> s.workers[i].index < s.workers[j].index
    ensures forall k: nat :: Start(k, s.workers[i].step) in s.log ==> k < s.workers[i].index
  {
    var ws, w := s.workers, s.workers[i];
    assert Pending(w, w.step);
    forall j | 0 <= j < |ws| && j != i && Pending(ws[j], w.step)
      ensures w.index < ws[j].index
    {
      assert !Ahead(ws[j], w);
    }
  }

  lemma BeginStartedFirst(s: State, i: nat)
    requires OwnBatches(s) && StartedFirst(s)
    requires i < |s.workers| && s.workers[i].phase.Testing? && !Blocked(s.workers, i)
    ensures StartedFirst(Begin(s, i))
  {
    BeginBetween(s, i);
    var t, w := Begin(s, i), s.workers[i];
    forall k: nat, st: nat, j | Start(k, st) in t.log && 0 <= j < |t.workers| && Pending(t.workers[j], st) && t.workers[j].step < t.nSteps
      ensures k < t.workers[j].index
    {
      assert Pending(s.workers[j], st);
      if Start(k, st) !in s.log {
        assert k == w.index && st == w.step;
      }
    }
  }

  lemma BeginIncreasing(s: State, i: nat)
    requires OwnBatches(s) && StartedFirst(s) && Increasing(s.log)
    requires i < |s.workers| && s.workers[i].phase.Testing? && !Blocked(s.workers, i)
    ensures Increasing(Begin(s, i).log)
  {
    BeginBetween(s, i);
    hide StartedFirst, OwnBatches;
    var w := s.workers[i];
    forall a | 0 <= a < |s.log| && s.log[a].Start? && s.log[a].step == w.step
      ensures s.log[a].index < w.index
    {
      assert s.log[a] == Start(s.log[a].index, s.log[a].step);
    }
  }

  lemma BeginCausal(s: State, i: nat)
    requires OwnBatches(s) && Causal(s) && i < |s.workers| && s.workers[i].phase.Testing?
    ensures Causal(Begin(s, i))
  {
    var t := Begin(s, i);
    assert forall k: nat, st: nat :: Pass(k, st) in t.log <==> Pass(k, st) in s.log;
  }

  lemma BeginNothingLost(s: State, i: nat)
    requires Inv(s) && i < |s.workers| && s.workers[i].phase.Testing?
    ensures NothingLost(Begin(s, i))
  {
    hide StartedFirst, Causal, InOrder, Increasing, SleepersBlocked;
    var t := Begin(s, i);
    forall k: nat, st: nat | Held(s, k, st)
      ensures Held(t, k, st) || Start(k, st) in t.log
    {
      var j :| 0 <= j < |s.workers| && Holds(s.workers[j], k, st);
      if j != i {
        assert Holds(t.workers[j], k, st);
      }
    }
  }

  lemma NextStepCases(step: nat, nSteps: nat, hasData: bool)
    requires step < nSteps
    ensures NextStep(step, nSteps, hasData) ==
            if step == nSteps - 1 then 0 else if hasData then step + 1 else nSteps
  {
  }

  lemma AdvanceOrdered(s: State, i: nat, hasData: bool)
    requires Inv(s) && i < |s.workers| && s.workers[i].phase.Working?
    ensures OwnBatches(Advance(s, i, hasData)) && InOrder(Advance(s, i, hasData))
  {
    hide StartedFirst, Causal, NothingLost, Increasing, SleepersBlocked, NextStep;
    NextStepCases(s.workers[i].step, s.nSteps, hasData);
  }

  lemma AdvanceLog(s: State, i: nat, hasData: bool)
    requires i < |s.workers| && s.workers[i].step < s.nSteps
    ensures var t, w := Advance(s, i, hasData), s.workers[i];
      && (forall k: nat, st: nat :: Start(k, st) in t.log <==> Start(k, st) in s.log)
      && (forall k: nat, st: nat :: Pass(k, st) in t.log <==>
            Pass(k, st) in s.log || (k == w.index && st == w.step && 0 < t.workers[i].step < s.nSteps))
  {
    hide NextStep;
  }

  lemma AdvanceStartedFirst(s: State, i: nat, hasData: bool)
    requires OwnBatches(s) && StartedFirst(s) && i < |s.workers| && s.workers[i].phase.Working?
    ensures StartedFirst(Advance(s, i, hasData))
  {
    hide NextStep;
    AdvanceLog(s, i, hasData);
    NextStepCases(s.workers[i].step, s.nSteps, hasData);
    var t := Advance(s, i, hasData);
    forall k: nat, st: nat, j | Start(k, st) in s.log && 0 <= j < |t.workers| && Pending(t.workers[j], st) && t.workers[j].step < t.nSteps
      ensures k < t.workers[j].index
    {
      if j != i || t.workers[i].step != 0 {
        assert Pending(s.workers[j], st);
      }
    }
  }

  lemma AdvanceIncreasing(s: State, i: nat, hasData: bool)
    requires Increasing(s.log) && i < |s.workers| && s.nSteps > 0
    ensures Increasing(Advance(s, i, hasData).log)
  {
    hide NextStep;
  }

  lemma AdvanceCausal(s: State, i: nat, hasData: bool)
    requires OwnBatches(s) && Causal(s) && i < |s.workers| && s.workers[i].phase.Working?
    ensures Causal(Advance(s, i, hasData))
  {
    hide NextStep;
    AdvanceLog(s, i, hasData);
    NextStepCases(s.workers[i].step, s.nSteps, hasData);
  }

  lemma AdvanceNothingLost(s: State, i: nat, hasData: bool)
    requires Inv(s) && i < |s.workers| && s.workers[i].phase.Working?
    ensures NothingLost(Advance(s, i, hasData))
  {
    hide StartedFirst, Causal, InOrder, Increasing, SleepersBlocked, NextStep;
    NextStepCases(s.workers[i].step, s.nSteps, hasData);
    var t := Advance(s, i, hasData);
    var w := s.workers[i];
    forall k: nat, st: nat | Held(s, k, st)
      ensures Held(t, k, st)
    {
      var j :| 0 <= j < |s.workers| && Holds(s.workers[j], k, st);
      assert Holds(t.workers[j], k, st);
    }
    assert t.workers[i].step == 0 ==> Holds(t.workers[i], s.nextIndex, 0);
    assert 0 < t.workers[i].step < s.nSteps ==> Holds(t.workers[i], w.index, w.step + 1);
  }

  lemma InvNext(s: State, a: Action)
    requires Inv(s) && Enabled(s, a)
    ensures Inv(Next(s, a))
  {
    hide OwnBatches, InOrder, StartedFirst, Causal, NothingLost, Increasing;
    var t := Next(s, a);
    var i := a.i;
    match a
    case Test(_) =>
      if Blocked(s.workers, i) {
        FallAsleep(s, i);
      } else {
        BeginOrdered(s, i);
        BeginStartedFirst(s, i);
        BeginIncreasing(s, i);
        BeginCausal(s, i);
        BeginNothingLost(s, i);
        SleepersStay(s, i);
        assert t == Begin(s, i);
      }
    case Finish(_, hasData) =>
      AdvanceOrdered(s, i, hasData);
      AdvanceStartedFirst(s, i, hasData);
      AdvanceIncreasing(s, i, hasData);
      AdvanceCausal(s, i, hasData);
      AdvanceNothingLost(s, i, hasData);
      SleepIrrelevant(Advance(s, i, hasData), t);
    case Wake(_) =>
      SleepIrrelevant(s, t);
      SleepersStay(s, i);
  }

  lemma FallAsleep(s: State, i: nat)
    requires Inv(s) && i < |s.workers| && s.workers[i].phase.Testing? && Blocked(s.workers, i)
    ensures Inv(s.(workers := s.workers[i := s.workers[i].(phase := Asleep)]))
  {
    hide OwnBatches, InOrder, StartedFirst, Causal, NothingLost, Increasing;
    var t := s.(workers := s.workers[i := s.workers[i].(phase := Asleep)]);
    SleepIrrelevant(s, t);
    forall j | 0 <= j < |s.workers| && Blocked(s.workers, j)
      ensures Blocked(t.workers, j)
    {
      var b :| 0 <= b < |s.workers| && Ahead(s.workers[b], s.workers[j]) && b != j;
      assert Ahead(t.workers[b], t.workers[j]);
    }
  }

  /** A change of phase does not unblock anybody: blocking depends on indices and steps only. */
  lemma SleepersStay(s: State, i: nat)
    requires SleepersBlocked(s) && i < |s.workers|
    ensures SleepersBlocked(Begin(s, i))
    ensures SleepersBlocked(s.(workers := s.workers[i := s.workers[i].(phase := Testing)]))
  {
    var u, v := Begin(s, i).workers, s.workers[i := s.workers[i].(phase := Testing)];
    forall j | 0 <= j < |s.workers| && Blocked(s.workers, j)
      ensures Blocked(u, j) && Blocked(v, j)
    {
      var b :| 0 <= b < |s.workers| && Ahead(s.workers[b], s.workers[j]) && b != j;
      assert Ahead(u[b], u[j]) && Ahead(v[b], v[j]);
    }
  }

  lemma {:induction false} InvRun(s: State, actions: seq<Action>, t: State)
    requires Inv(s) && Run(s, actions, t)
    ensures Inv(t)
    decreases |actions|
  {
    hide Inv, Next, Enabled;
    if actions != [] {
      InvNext(s, actions[0]);
      InvRun(Next(s, actions[0]), actions[1..], t);
    }
  }

  lemma InvReachable(nThreads: int, nSteps: nat, t: State)
    requires Reachable(nThreads, nSteps, t)
    ensures Inv(t)
  {
    hide Inv;
    var actions :| Run(Init(nThreads, nSteps), actions, t);
    InvInit(nThreads, nSteps);
    InvRun(Init(nThreads, nSteps), actions, t);
  }

  // ---- what follows for every run ---------------------------------------------

  /** No two workers execute the same step at once. */
  lemma StepExclusive(nThreads: int, nSteps: nat, t: State, i: nat, j: nat)
    requires Reachable(nThreads, nSteps, t)
    requires i < |t.workers| && j < |t.workers| && i != j
    requires t.workers[i].phase.Working? && t.workers[j].phase.Working?
    ensures t.workers[i].step != t.workers[j].step
  {
    InvReachable(nThreads, nSteps, t);
    var wi, wj := t.workers[i], t.workers[j];
    assert Behind(wi, wj, t.nSteps) || Behind(wj, wi, t.nSteps);
  }

  /**
   Batches start every step in strictly increasing order of their indices, without gaps: at
   step 0 no new batch is skipped, and later no batch that passed the step before is overtaken.
   */
  lemma BatchOrder(nThreads: int, nSteps: nat, t: State)
    requires Reachable(nThreads, nSteps, t)
    ensures Increasing(t.log)
    ensures forall k: nat, k': nat :: k < k' && Start(k', 0) in t.log ==> Start(k, 0) in t.log
    ensures forall k: nat, k': nat, st: nat :: k < k' && st > 0 && Start(k', st) in t.log && Pass(k, st - 1) in t.log ==> Start(k, st) in t.log
    ensures forall k: nat, st: nat :: Start(k, st) in t.log && st > 0 ==> Pass(k, st - 1) in t.log
  {
    hide Increasing, InOrder, SleepersBlocked;
    InvReachable(nThreads, nSteps, t);
    forall k: nat, k': nat, st: nat | Start(k', st) in t.log && Held(t, k, st)
      ensures k' < k
    {
      var i :| 0 <= i < |t.workers| && Holds(t.workers[i], k, st);
      assert Pending(t.workers[i], st);
    }
  }

  /**
   No deadlock: while any worker is unfinished, the one with the smallest batch is working
   or will pass its test as soon as it runs.
   */
  lemma Progress(nThreads: int, nSteps: nat, t: State) returns (i: nat)
    requires Reachable(nThreads, nSteps, t)
    requires exists j :: 0 <= j < |t.workers| && !t.workers[j].phase.Done?
    ensures i < |t.workers| && !t.workers[i].phase.Done?
    ensures forall j :: 0 <= j < |t.workers| && !t.workers[j].phase.Done? ==> t.workers[i].index <= t.workers[j].index
    ensures t.workers[i].phase.Working? || (t.workers[i].phase.Testing? && !Blocked(t.workers, i))
  {
    hide Inv;
    InvReachable(nThreads, nSteps, t);
    i :| 0 <= i < |t.workers| && !t.workers[i].phase.Done?;
    i := SmallestUnfinished(t.workers, i);
    SmallestRuns(t, i);
  }

  lemma SmallestRuns(s: State, i: nat)
    requires Inv(s) && i < |s.workers| && !s.workers[i].phase.Done?
    requires forall j :: 0 <= j < |s.workers| && !s.workers[j].phase.Done? ==> s.workers[i].index <= s.workers[j].index
    ensures s.workers[i].phase.Working? || (s.workers[i].phase.Testing? && !Blocked(s.workers, i))
  {
    hide StartedFirst, Causal, NothingLost, Increasing, InOrder;
    forall j | 0 <= j < |s.workers|
      ensures !Ahead(s.workers[j], s.workers[i])
    {
      assert s.workers[j].phase.Done? <==> s.workers[j].step == s.nSteps;
    }
  }

  lemma {:induction false} SmallestUnfinished(ws: seq<Worker>, from: nat) returns (i: nat)
    requires from < |ws| && !ws[from].phase.Done?
    ensures i < |ws| && !ws[i].phase.Done?
    ensures forall j :: 0 <= j < |ws| && !ws[j].phase.Done? ==> ws[i].index <= ws[j].index
    decreases ws[from].index
  {
    if j :| 0 <= j < |ws| && !ws[j].phase.Done? && ws[j].index < ws[from].index {
      i := SmallestUnfinished(ws, j);
    } else {
      i := from;
    }
  }

  // ---- the end of a run --------------------------------------------------------

  ghost predicate SomeDone(s: State) {
    exists i :: 0 <= i < |s.workers| && s.workers[i].phase.Done?
  }

  ghost predicate AllDone(s: State) {
    forall i :: 0 <= i < |s.workers| ==> s.workers[i].phase.Done?
  }

  /** `kt_pipeline` can still return: some run from here ends with every worker finished. */
  ghost predicate CanEnd(s: State) {
    exists actions, t :: Run(s, actions, t) && AllDone(t)
  }

  /** A run in which the first step finds no more input. */
  ghost predicate DrainedRun(s: State, actions: seq<Action>, t: State)
    decreases |actions|
  {
    if actions == [] then s == t
    else
      && Enabled(s, actions[0])
      && (actions[0].Finish? && s.workers[actions[0].i].step == 0 ==> !actions[0].hasData)
      && DrainedRun(Next(s, actions[0]), actions[1..], t)
  }

  /** How often the step function returns in a run. */
  function Calls(actions: seq<Action>): nat {
    if actions == [] then 0 else (if actions[0].Finish? then 1 else 0) + Calls(actions[1..])
  }

  /** How many steps a worker has before it, if no new batch has data: those of its batch, and one look for another. */
  function Rest(w: Worker, nSteps: nat): nat {
    if w.step >= nSteps then 0 else if w.step == 0 then 1 else nSteps - w.step + 1
  }

  function Rests(s: State): (r: seq<nat>)
    ensures |r| == |s.workers| && forall i :: 0 <= i < |r| ==> r[i] == Rest(s.workers[i], s.nSteps)
  {
    seq(|s.workers|, i requires 0 <= i < |s.workers| => Rest(s.workers[i], s.nSteps))
  }

  lemma SameRests(s: State, t: State)
    requires t.nSteps == s.nSteps && |t.workers| == |s.workers|
    requires forall i :: 0 <= i < |s.workers| ==> t.workers[i].step == s.workers[i].step
    ensures Rests(t) == Rests(s)
  {
  }

  lemma NextStepNearer(step: nat, nSteps: nat, hasData: bool)
    requires nSteps > 1 && step < nSteps && (step == 0 ==> !hasData)
    ensures var next := NextStep(step, nSteps, hasData);
      Rest(Worker(0, next, Testing), nSteps) < Rest(Worker(0, step, Testing), nSteps)
  {
    NextStepCases(step, nSteps, hasData);
  }

  /** The step function returned, without a batch to go on with if it was the first step. */
  lemma FinishLessens(s: State, i: nat, hasData: bool)
    requires Inv(s) && Enabled(s, Finish(i, hasData)) && s.nSteps > 1 && (s.workers[i].step == 0 ==> !hasData)
    ensures Sum(Rests(Next(s, Finish(i, hasData)))) < Sum(Rests(s))
  {
    var t, w := Next(s, Finish(i, hasData)), s.workers[i];
    WorkingInside(s, i);
    FinishSteps(s, i, hasData);
    NextStepNearer(w.step, s.nSteps, hasData);
    hide NextStep, Rest, Inv, Next;
    RestOfStep(w, s.nSteps);
    RestOfStep(t.workers[i], s.nSteps);
    RestsBut(s, t, i);
    SumUpdate(Rests(s), i, Rests(t)[i]);
  }

  lemma FinishSteps(s: State, i: nat, hasData: bool)
    requires Enabled(s, Finish(i, hasData))
    ensures var t := Next(s, Finish(i, hasData));
      && t.nSteps == s.nSteps && |t.workers| == |s.workers|
      && t.workers[i].step == NextStep(s.workers[i].step, s.nSteps, hasData)
      && forall j :: 0 <= j < |s.workers| && j != i ==> t.workers[j].step == s.workers[j].step
  {
    hide NextStep;
  }

  lemma RestsBut(s: State, t: State, i: nat)
    requires t.nSteps == s.nSteps && |t.workers| == |s.workers| && i < |s.workers|
    requires forall j :: 0 <= j < |s.workers| && j != i ==> t.workers[j].step == s.workers[j].step
    ensures Rests(t) == Rests(s)[i := Rests(t)[i]]
  {
  }

  lemma WorkingInside(s: State, i: nat)
    requires Inv(s) && i < |s.workers| && s.workers[i].phase.Working?
    ensures s.workers[i].step < s.nSteps
  {
    hide InOrder, SleepersBlocked, StartedFirst, Causal, NothingLost, Increasing;
  }

  lemma RestOfStep(w: Worker, nSteps: nat)
    ensures Rest(w, nSteps) == Rest(Worker(0, w.step, Testing), nSteps)
  {
  }

  /**
   Once the input has ended, the step function is called only so often any more, however
   the workers are scheduled; with more than one step, each call brings the end nearer.
   */
  lemma {:induction false} DrainedCalls(s: State, actions: seq<Action>, t: State)
    requires Inv(s) && s.nSteps != 1 && DrainedRun(s, actions, t)
    ensures Calls(actions) + Sum(Rests(t)) <= Sum(Rests(s)) && Run(s, actions, t)
    decreases |actions|
  {
    if actions != [] {
      var a, u := actions[0], Next(s, actions[0]);
      if a.Finish? {
        FinishLessens(s, a.i, a.hasData);
      } else {
        SameRests(s, u);
      }
      InvNext(s, a);
      hide Inv, Next, Enabled, Rests;
      DrainedCalls(u, actions[1..], t);
    }
  }

  // ---- every drained run ends ------------------------------------------------------

  /** Which workers have a test before them. */
  function Tests(s: State): (r: seq<nat>)
    ensures |r| == |s.workers| && forall i :: 0 <= i < |r| ==> r[i] == if s.workers[i].phase.Testing? then 1 else 0
  {
    seq(|s.workers|, i requires 0 <= i < |s.workers| => if s.workers[i].phase.Testing? then 1 else 0)
  }

  /** A bound for the actions to come: each return of the step function may wake all the workers, each of which then tests once. */
  function Effort(s: State): nat {
    Times(|s.workers| + 1, Sum(Rests(s))) + Sum(Tests(s))
  }

  function Times(n: nat, k: nat): nat {
    if k == 0 then 0 else n + Times(n, k - 1)
  }

  /** How often a worker wakes up without a broadcast. */
  function Wakes(actions: seq<Action>): nat {
    if actions == [] then 0 else (if actions[0].Wake? then 1 else 0) + Wakes(actions[1..])
  }

  lemma {:induction false} SumAtMost(s: seq<nat>)
    requires forall i :: 0 <= i < |s| ==> s[i] <= 1
    ensures Sum(s) <= |s|
  {
    if s != [] {
      SumAtMost(s[..|s| - 1]);
    }
  }

  lemma {:induction false} FewerTimes(n: nat, a: nat, b: nat)
    requires a < b
    ensures n + Times(n, a) <= Times(n, b)
  {
    if a < b - 1 {
      FewerTimes(n, a, b - 1);
    }
  }

  lemma TestsAtMost(s: State)
    ensures Sum(Tests(s)) <= |s.workers|
  {
    SumAtMost(Tests(s));
  }

  /** A test or an early wake-up. */
  lemma PhaseEffort(s: State, a: Action)
    requires Enabled(s, a) && !a.Finish?
    ensures Effort(Next(s, a)) == if a.Wake? then Effort(s) + 1 else Effort(s) - 1
    ensures !a.Wake? ==> Effort(s) > 0
  {
    hide Next, Enabled, Rests, Tests, Times, Sum;
    var t := Next(s, a);
    PhaseChanges(s, a);
    SameRests(s, t);
    TestsBut(s, t, a.i);
    SumUpdate(Tests(s), a.i, Tests(t)[a.i]);
  }

  lemma TestsBut(s: State, t: State, i: nat)
    requires |t.workers| == |s.workers| && i < |s.workers|
    requires forall j :: 0 <= j < |s.workers| && j != i ==> t.workers[j] == s.workers[j]
    ensures Tests(t) == Tests(s)[i := Tests(t)[i]]
    ensures Tests(s)[i] == (if s.workers[i].phase.Testing? then 1 else 0)
    ensures Tests(t)[i] == (if t.workers[i].phase.Testing? then 1 else 0)
  {
  }

  lemma PhaseChanges(s: State, a: Action)
    requires Enabled(s, a) && !a.Finish?
    ensures var t := Next(s, a);
      && t.nSteps == s.nSteps && |t.workers| == |s.workers| && a.i < |s.workers|
      && (forall j :: 0 <= j < |s.workers| ==> t.workers[j].step == s.workers[j].step)
      && (forall j :: 0 <= j < |s.workers| && j != a.i ==> t.workers[j] == s.workers[j])
      && s.workers[a.i].phase.Testing? == a.Test? && t.workers[a.i].phase.Testing? == a.Wake?
  {
  }

  lemma FinishEffort(s: State, i: nat, hasData: bool)
    requires Inv(s) && Enabled(s, Finish(i, hasData)) && s.nSteps > 1 && (s.workers[i].step == 0 ==> !hasData)
    ensures Effort(Next(s, Finish(i, hasData))) < Effort(s)
  {
    hide Inv, Next, Enabled, Rests, Tests, Sum, Times;
    var t := Next(s, Finish(i, hasData));
    FinishLessens(s, i, hasData);
    FinishSteps(s, i, hasData);
    TestsAtMost(t);
    FewerTimes(|s.workers| + 1, Sum(Rests(t)), Sum(Rests(s)));
  }

  lemma DrainedEffort(s: State, a: Action)
    requires Inv(s) && s.nSteps != 1 && Enabled(s, a) && (a.Finish? && s.workers[a.i].step == 0 ==> !a.hasData)
    ensures Effort(Next(s, a)) + 1 <= Effort(s) + if a.Wake? then 2 else 0
  {
    hide Next, Inv, Effort;
    if a.Finish? {
      FinishEffort(s, a.i, a.hasData);
    } else {
      PhaseEffort(s, a);
    }
  }

  /** But for workers that wake up early, a drained run is no longer than the effort it starts with. */
  lemma {:induction false} DrainedLength(s: State, actions: seq<Action>, t: State)
    requires Inv(s) && s.nSteps != 1 && DrainedRun(s, actions, t)
    ensures |actions| + Effort(t) <= Effort(s) + 2 * Wakes(actions) && Inv(t)
    decreases |actions|
  {
    hide Inv, Next, Enabled, Effort;
    if actions != [] {
      DrainedEffort(s, actions[0]);
      InvNext(s, actions[0]);
      NextKeeps(s, actions[0]);
      DrainedLength(Next(s, actions[0]), actions[1..], t);
    }
  }

  lemma NextKeeps(s: State, a: Action)
    requires Enabled(s, a)
    ensures Next(s, a).nSteps == s.nSteps && |Next(s, a).workers| == |s.workers|
  {
  }

  /** No action is left but early wake-ups. */
  ghost predicate Still(s: State) {
    forall a :: Enabled(s, a) ==> a.Wake?
  }

  /** While a worker is unfinished there is something to do. */
  lemma SomeMove(s: State, i: nat) returns (a: Action)
    requires Inv(s) && i < |s.workers| && !s.workers[i].phase.Done?
    ensures Enabled(s, a) && !a.Wake?
  {
    hide Inv;
    var k := SmallestUnfinished(s.workers, i);
    SmallestRuns(s, k);
    StepsExist(s, k);
    a := if s.workers[k].phase.Working? then Finish(k, false) else Test(k);
  }

  lemma StillIsDone(s: State)
    requires Inv(s) && Still(s)
    ensures AllDone(s)
  {
    hide Inv;
    forall i | 0 <= i < |s.workers|
      ensures s.workers[i].phase.Done?
    {
      if !s.workers[i].phase.Done? {
        var a := SomeMove(s, i);
      }
    }
  }

  lemma StepsExist(s: State, i: nat)
    requires Inv(s) && i < |s.workers| && !s.workers[i].phase.Done?
    ensures s.nSteps > 0
  {
    hide InOrder, SleepersBlocked, StartedFirst, Causal, NothingLost, Increasing;
  }

  /**
   Once the input has ended, every schedule of a pipeline that does not have exactly one step
   comes to a stop, early wake-ups aside, and where it stops all workers have finished.
   */
  lemma DrainedRunsEnd(nThreads: int, nSteps: nat, s: State, actions: seq<Action>, t: State)
    requires Reachable(nThreads, nSteps, s) && nSteps != 1 && DrainedRun(s, actions, t)
    ensures |actions| <= Effort(s) + 2 * Wakes(actions)
    ensures Still(t) <==> AllDone(t)
  {
    hide Inv, Effort, DrainedRun;
    InvReachable(nThreads, nSteps, s);
    var before :| Run(Init(nThreads, nSteps), before, s);
    RunKeeps(Init(nThreads, nSteps), before, s);
    DrainedLength(s, actions, t);
    if Still(t) {
      StillIsDone(t);
    }
  }

  lemma OneAction(s: State, a: Action)
    requires Enabled(s, a) && (a.Finish? ==> !a.hasData)
    ensures DrainedRun(s, [a], Next(s, a))
  {
    hide Next, Enabled;
    assert [a][1..] == [];
    assert DrainedRun(Next(s, a), [], Next(s, a));
  }

  lemma BeginOn(s: State, i: nat) returns (t: State)
    requires Inv(s) && i < |s.workers| && s.workers[i].phase.Testing? && !Blocked(s.workers, i)
    ensures DrainedRun(s, [Test(i)], t) && Inv(t) && t.nSteps == s.nSteps && Rests(t) == Rests(s)
    ensures i < |t.workers| && t.workers[i].phase.Working?
  {
    t := Next(s, Test(i));
    InvNext(s, Test(i));
    OneAction(s, Test(i));
    hide Inv, DrainedRun;
    SameRests(s, t);
  }

  lemma FinishOn(s: State, i: nat) returns (t: State)
    requires Inv(s) && s.nSteps > 1 && i < |s.workers| && s.workers[i].phase.Working?
    ensures DrainedRun(s, [Finish(i, false)], t) && Inv(t) && t.nSteps == s.nSteps && Sum(Rests(t)) < Sum(Rests(s))
  {
    hide Inv, DrainedRun, Next, Rests;
    t := Next(s, Finish(i, false));
    FinishSteps(s, i, false);
    InvNext(s, Finish(i, false));
    OneAction(s, Finish(i, false));
    FinishLessens(s, i, false);
  }

  /** One more step of work of the smallest unfinished worker. */
  lemma OneStepOn(s: State, i: nat) returns (actions: seq<Action>, t: State)
    requires Inv(s) && s.nSteps > 1 && i < |s.workers|
    requires s.workers[i].phase.Working? || (s.workers[i].phase.Testing? && !Blocked(s.workers, i))
    ensures DrainedRun(s, actions, t) && Inv(t) && t.nSteps == s.nSteps && Sum(Rests(t)) < Sum(Rests(s))
  {
    hide Inv, DrainedRun, Next, Rests;
    if s.workers[i].phase.Testing? {
      var u := BeginOn(s, i);
      t := FinishOn(u, i);
      DrainedConcat(s, [Test(i)], u, [Finish(i, false)], t);
      actions := [Test(i)] + [Finish(i, false)];
    } else {
      t := FinishOn(s, i);
      actions := [Finish(i, false)];
    }
  }

  /** From every sound state there is a way to the end, unless there is exactly one step. */
  lemma {:induction false} Drains(s: State) returns (actions: seq<Action>, t: State)
    requires Inv(s) && s.nSteps != 1
    ensures DrainedRun(s, actions, t) && AllDone(t)
    decreases Sum(Rests(s))
  {
    if i :| 0 <= i < |s.workers| && !s.workers[i].phase.Done? {
      StepsLeft(s, i);
      var k := SmallestUnfinished(s.workers, i);
      SmallestRuns(s, k);
      hide Inv, Rests;
      var first, u := OneStepOn(s, k);
      var rest;
      rest, t := Drains(u);
      actions := first + rest;
      DrainedConcat(s, first, u, rest, t);
    } else {
      actions, t := [], s;
    }
  }

  lemma StepsLeft(s: State, i: nat)
    requires Inv(s) && s.nSteps != 1 && i < |s.workers| && !s.workers[i].phase.Done?
    ensures s.nSteps > 1
  {
    hide InOrder, SleepersBlocked, StartedFirst, Causal, NothingLost, Increasing;
  }

  lemma {:induction false} DrainedConcat(s: State, a: seq<Action>, t: State, b: seq<Action>, u: State)
    requires DrainedRun(s, a, t) && DrainedRun(t, b, u)
    ensures DrainedRun(s, a + b, u)
    decreases |a|
  {
    hide Next, Enabled;
    if a == [] {
      assert a + b == b;
    } else {
      assert (a + b)[0] == a[0] && (a + b)[1..] == a[1..] + b;
      DrainedConcat(Next(s, a[0]), a[1..], t, b, u);
    }
  }

  /** What every run keeps: the numbers of workers and steps, and with one step that nobody leaves it. */
  lemma {:induction false} RunKeeps(s: State, actions: seq<Action>, t: State)
    requires Run(s, actions, t)
    ensures t.nSteps == s.nSteps && |t.workers| == |s.workers|
    ensures Staying(s) ==> Staying(t)
    decreases |actions|
  {
    if actions != [] {
      RunKeeps(Next(s, actions[0]), actions[1..], t);
    }
  }

  ghost predicate Staying(s: State) {
    s.nSteps == 1 && forall i :: 0 <= i < |s.workers| ==> s.workers[i].step == 0 && !s.workers[i].phase.Done?
  }

  /**
   From every reachable state `kt_pipeline` can come to its end if and only if it does not
   have exactly one step: the only step is also the last one, after which a worker always
   takes a new batch. With one step no worker ever leaves its loop.
   */
  lemma WorkersFinish(nThreads: int, nSteps: nat, t: State)
    requires Reachable(nThreads, nSteps, t)
    ensures CanEnd(t) <==> nSteps != 1
    ensures nSteps == 1 ==> !SomeDone(t)
  {
    hide Inv;
    InvReachable(nThreads, nSteps, t);
    var before :| Run(Init(nThreads, nSteps), before, t);
    RunKeeps(Init(nThreads, nSteps), before, t);
    if nSteps != 1 {
      var actions, u := Drains(t);
      DrainedCalls(t, actions, u);
    } else {
      assert Staying(Init(nThreads, nSteps));
      forall actions, u | Run(t, actions, u)
        ensures !AllDone(u)
      {
        RunKeeps(t, actions, u);
        assert !u.workers[0].phase.Done?;
      }
    }
  }
}
