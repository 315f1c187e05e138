/**
 ext/klib/kthread.c, kt_pipeline: the data that the step function is given and returns. The
 control of the workers is that of `KtPipeline`; beside it stand what each worker keeps in
 `w->data`, and what every call was given and what it returned.
 */
module KtPipelineData {
  import opened KtPipeline

  datatype Data = Null | Value(v: int)

  datatype Flow = Flow(control: State, data: seq<Data>, given: map<(nat, nat), Data>, returned: map<(nat, nat), Data>)

  /** An action, and what the step function returned if it is one. */
  datatype Move = Move(a: Action, out: Data)

  function FlowInit(nThreads: int, nSteps: nat): Flow {
    var s := Init(nThreads, nSteps);
    Flow(s, seq(|s.workers|, i => Null), map[], map[])
  }

  predicate MoveEnabled(f: Flow, m: Move) {
    && |f.data| == |f.control.workers|
    && Enabled(f.control, m.a)
    && (m.a.Finish? ==> m.a.hasData == m.out.Value?)
  }

  /** What a worker hands to the step function. */
  function Input(f: Flow, i: nat): Data
    requires i < |f.data| && i < |f.control.workers|
  {
    if f.control.workers[i].step != 0 then f.data[i] else Null
  }

  function Act(f: Flow, m: Move): Flow
    requires MoveEnabled(f, m)
  {
    var c, w := Next(f.control, m.a), f.control.workers[m.a.i];
    match m.a
    case Test(i) =>
      if Blocked(f.control.workers, i) then f.(control := c)
      else f.(control := c, given := f.given[(w.index, w.step) := Input(f, i)])
    case Finish(i, _) =>
      Flow(c, f.data[i := m.out], f.given, f.returned[(w.index, w.step) := m.out])
    case Wake(_) => f.(control := c)
  }

  ghost predicate Flows(f: Flow, moves: seq<Move>, g: Flow)
    decreases |moves|
  {
    if moves == [] then f == g
    else MoveEnabled(f, moves[0]) && Flows(Act(f, moves[0]), moves[1..], g)
  }

  function Actions(moves: seq<Move>): seq<Action> {
    if moves == [] then [] else [moves[0].a] + Actions(moves[1..])
  }

  /** Leaving out the data leaves a run of the pipeline. */
  lemma {:induction false} FlowsRun(f: Flow, moves: seq<Move>, g: Flow)
    requires Flows(f, moves, g)
    ensures Run(f.control, Actions(moves), g.control)
    decreases |moves|
  {
    if moves != [] {
      FlowsRun(Act(f, moves[0]), moves[1..], g);
    }
  }

  // ---- the invariant ----------------------------------------------------------

  /** What a batch was given: nothing at first, and then what the step before it returned for the same batch. */
  ghost predicate Handed(f: Flow, k: nat, st: nat)
    requires (k, st) in f.given
  {
    if st == 0 then f.given[(k, st)] == Null
    else (k, st - 1) in f.returned && f.given[(k, st)] == f.returned[(k, st - 1)]
  }

  /** Workers come later than what they returned, and keep what they returned last. */
  ghost predicate Kept(f: Flow) {
    var ws := f.control.workers;
    && |f.data| == |ws|
    && (forall k: nat, st: nat :: (k, st) in f.returned ==> k < f.control.nextIndex)
    && (forall i, st: nat :: 0 <= i < |ws| && (ws[i].index, st) in f.returned ==> st < ws[i].step)
    && (forall i :: 0 <= i < |ws| && 0 < ws[i].step < f.control.nSteps ==>
          (ws[i].index, ws[i].step - 1) in f.returned && f.data[i] == f.returned[(ws[i].index, ws[i].step - 1)])
  }

  ghost predicate AllHanded(f: Flow) {
    && (forall k: nat, st: nat :: (k, st) in f.given ==> Handed(f, k, st))
    && (forall k: nat, st: nat :: Start(k, st) in f.control.log ==> (k, st) in f.given)
  }

  /** A batch goes on to the next step exactly if the step function returned something. */
  ghost predicate PassesValues(f: Flow) {
    && (forall k: nat, st: nat :: Pass(k, st) in f.control.log ==> (k, st) in f.returned)
    && (forall k: nat, st: nat :: (k, st) in f.returned && st + 1 < f.control.nSteps ==>
          (Pass(k, st) in f.control.log <==> f.returned[(k, st)].Value?))
  }

  ghost predicate FlowInv(f: Flow) {
    Inv(f.control) && Kept(f) && AllHanded(f) && PassesValues(f)
  }

  // ---- every action keeps it --------------------------------------------------

  /** A test changes no batch and no step, and logs what it starts. */
  lemma TestKeeps(s: State, i: nat)
    requires Enabled(s, Test(i))
    ensures var t := Next(s, Test(i));
      && SamePlaces(s, t)
      && t.log == if Blocked(s.workers, i) then s.log else s.log + [Start(s.workers[i].index, s.workers[i].step)]
  {
  }

  lemma WakeKeeps(s: State, i: nat)
    requires Enabled(s, Wake(i))
    ensures SamePlaces(s, Next(s, Wake(i))) && Next(s, Wake(i)).log == s.log
  {
  }

  ghost predicate SamePlaces(s: State, t: State) {
    && t.nSteps == s.nSteps && t.nextIndex == s.nextIndex && |t.workers| == |s.workers|
    && forall j :: 0 <= j < |s.workers| ==> t.workers[j].index == s.workers[j].index && t.workers[j].step == s.workers[j].step
  }

  /** Where a worker goes, and that it alone moves, when its step function has returned. */
  lemma FinishMoves(s: State, i: nat, hasData: bool)
    requires Inv(s) && Enabled(s, Finish(i, hasData))
    ensures var t, w := Next(s, Finish(i, hasData)), s.workers[i];
      && t.nSteps == s.nSteps && |t.workers| == |s.workers| && w.step < s.nSteps
      && (forall j :: 0 <= j < |s.workers| && j != i ==> t.workers[j].index == s.workers[j].index && t.workers[j].step == s.workers[j].step)
      && (if w.step == s.nSteps - 1 then
            t.workers[i].step == 0 && t.workers[i].index == s.nextIndex && t.nextIndex == s.nextIndex + 1 && t.log == s.log
          else
            && t.workers[i].index == w.index && t.nextIndex == s.nextIndex
            && if hasData then t.workers[i].step == w.step + 1 && t.log == s.log + [Pass(w.index, w.step)]
               else t.workers[i].step == s.nSteps && t.log == s.log)
  {
    WorkingInside(s, i);
    hide Inv, NextStep;
    NextStepCases(s.workers[i].step, s.nSteps, hasData);
  }

  /** What a test changes: the call that it starts, if any, is given the worker's data. */
  lemma TestGives(f: Flow, m: Move)
    requires MoveEnabled(f, m) && m.a.Test?
    ensures m.a.i < |f.data| && m.a.i < |f.control.workers|
    ensures var g, w := Act(f, m), f.control.workers[m.a.i];
      && g.data == f.data && g.returned == f.returned && SamePlaces(f.control, g.control)
      && if Blocked(f.control.workers, m.a.i) then g.given == f.given && g.control.log == f.control.log
         else
           && g.given == f.given[(w.index, w.step) := Input(f, m.a.i)]
           && g.control.log == f.control.log + [Start(w.index, w.step)]
  {
    hide Next, Blocked;
    TestKeeps(f.control, m.a.i);
  }

  /** One more call is recorded with the right data. */
  lemma GiveOne(f: Flow, g: Flow, key: (nat, nat))
    requires AllHanded(f) && g.returned == f.returned
    requires key in g.given && g.given == f.given[key := g.given[key]] && Handed(g, key.0, key.1)
    requires g.control.log == f.control.log + [Start(key.0, key.1)]
    ensures AllHanded(g)
  {
    forall k: nat, st: nat | (k, st) in g.given
      ensures Handed(g, k, st)
    {
      if (k, st) != key {
        assert Handed(f, k, st);
      }
    }
  }

  lemma SameHanded(f: Flow, g: Flow)
    requires AllHanded(f) && g.returned == f.returned && g.given == f.given && g.control.log == f.control.log
    ensures AllHanded(g)
  {
    forall k: nat, st: nat | (k, st) in g.given
      ensures Handed(g, k, st)
    {
      assert Handed(f, k, st);
    }
  }

  /** The data a worker holds is what its batch is to be given. */
  ghost predicate InputRight(f: Flow, i: nat)
    requires i < |f.data| && i < |f.control.workers|
  {
    var w := f.control.workers[i];
    if w.step == 0 then Input(f, i) == Null
    else (w.index, w.step - 1) in f.returned && Input(f, i) == f.returned[(w.index, w.step - 1)]
  }

  lemma KeptInput(f: Flow, i: nat)
    requires Kept(f) && i < |f.control.workers| && f.control.workers[i].step < f.control.nSteps
    ensures InputRight(f, i)
  {
  }

  lemma GivesInput(f: Flow, g: Flow, i: nat)
    requires i < |f.data| && i < |f.control.workers| && InputRight(f, i) && AllHanded(f)
    requires var w := f.control.workers[i];
      && g.returned == f.returned && g.given == f.given[(w.index, w.step) := Input(f, i)]
      && g.control.log == f.control.log + [Start(w.index, w.step)]
    ensures AllHanded(g)
  {
    hide Input, AllHanded;
    GiveOne(f, g, (f.control.workers[i].index, f.control.workers[i].step));
  }

  lemma TestHanded(f: Flow, m: Move)
    requires AllHanded(f) && MoveEnabled(f, m) && m.a.Test? && InputRight(f, m.a.i)
    ensures AllHanded(Act(f, m))
  {
    hide *;
    TestGives(f, m);
    if Blocked(f.control.workers, m.a.i) {
      SameHanded(f, Act(f, m));
    } else {
      GivesInput(f, Act(f, m), m.a.i);
    }
  }

  lemma PlacesKept(f: Flow, g: Flow)
    requires Kept(f) && SamePlaces(f.control, g.control) && g.data == f.data && g.returned == f.returned
    ensures Kept(g)
  {
  }

  lemma PassesKept(f: Flow, g: Flow, k: nat, st: nat)
    requires PassesValues(f) && g.returned == f.returned && g.control.nSteps == f.control.nSteps
    requires g.control.log == f.control.log || g.control.log == f.control.log + [Start(k, st)]
    ensures PassesValues(g)
  {
    assert forall k: nat, st: nat :: Pass(k, st) in g.control.log <==> Pass(k, st) in f.control.log;
  }

  lemma TestFlow(f: Flow, m: Move)
    requires FlowInv(f) && MoveEnabled(f, m) && m.a.Test?
    ensures Kept(Act(f, m)) && AllHanded(Act(f, m)) && PassesValues(Act(f, m))
  {
    EnabledWorker(f.control, m.a);
    StepsWithin(f.control, m.a.i);
    KeptInput(f, m.a.i);
    hide *;
    TestHanded(f, m);
    TestGives(f, m);
    var w := f.control.workers[m.a.i];
    PlacesKept(f, Act(f, m));
    PassesKept(f, Act(f, m), w.index, w.step);
  }

  lemma EnabledWorker(s: State, a: Action)
    requires Enabled(s, a)
    ensures a.i < |s.workers| && (a.Test? ==> s.workers[a.i].phase.Testing?)
  {
  }

  lemma StepsWithin(s: State, i: nat)
    requires Inv(s) && i < |s.workers|
    ensures s.workers[i].phase.Testing? ==> s.workers[i].step < s.nSteps
    ensures s.workers[i].index < s.nextIndex
    ensures forall j :: 0 <= j < |s.workers| && j != i ==> s.workers[j].index != s.workers[i].index
  {
    hide InOrder, SleepersBlocked, StartedFirst, Causal, NothingLost, Increasing;
  }

  lemma WakeFlow(f: Flow, m: Move)
    requires FlowInv(f) && MoveEnabled(f, m) && m.a.Wake?
    ensures Kept(Act(f, m)) && AllHanded(Act(f, m)) && PassesValues(Act(f, m))
  {
    WakeKeeps(f.control, m.a.i);
    hide Inv, Next, Enabled, AllHanded, Kept, PassesValues;
    PlacesKept(f, Act(f, m));
    SameHanded(f, Act(f, m));
    PassesKept(f, Act(f, m), 0, 0);
  }

  lemma FinishFlow(f: Flow, m: Move)
    requires FlowInv(f) && MoveEnabled(f, m) && m.a.Finish?
    ensures Kept(Act(f, m)) && AllHanded(Act(f, m)) && PassesValues(Act(f, m))
  {
    hide Inv, Next, Enabled;
    var i, s := m.a.i, f.control;
    FinishMoves(s, i, m.a.hasData);
    EnabledWorker(s, m.a);
    StepsWithin(s, i);
    var g, w := Act(f, m), s.workers[i];
    assert (w.index, w.step) !in f.returned;
    forall k: nat, st: nat | (k, st) in g.given
      ensures Handed(g, k, st)
    {
      assert Handed(f, k, st);
    }
    assert Pass(w.index, w.step) !in s.log;
  }

  lemma FlowNext(f: Flow, m: Move)
    requires FlowInv(f) && MoveEnabled(f, m)
    ensures FlowInv(Act(f, m))
  {
    InvNext(f.control, m.a);
    hide Inv, Next, Enabled, Kept, AllHanded, PassesValues;
    match m.a
    case Test(_) => TestFlow(f, m);
    case Finish(_, _) => FinishFlow(f, m);
    case Wake(_) => WakeFlow(f, m);
  }

  lemma FlowStart(nThreads: int, nSteps: nat)
    ensures FlowInv(FlowInit(nThreads, nSteps))
  {
    InvInit(nThreads, nSteps);
    hide Inv;
  }

  lemma {:induction false} FlowRun(f: Flow, moves: seq<Move>, g: Flow)
    requires FlowInv(f) && Flows(f, moves, g)
    ensures FlowInv(g) && g.control.nSteps == f.control.nSteps
    decreases |moves|
  {
    hide FlowInv, Act, MoveEnabled;
    if moves != [] {
      FlowNext(f, moves[0]);
      ActSteps(f, moves[0]);
      FlowRun(Act(f, moves[0]), moves[1..], g);
    }
  }

  lemma ActSteps(f: Flow, m: Move)
    requires MoveEnabled(f, m)
    ensures Act(f, m).control.nSteps == f.control.nSteps
  {
    NextKeeps(f.control, m.a);
    hide Next, Enabled;
  }

  lemma WhatFlows(f: Flow)
    requires FlowInv(f)
    ensures forall k: nat :: Start(k, 0) in f.control.log ==> (k, 0) in f.given && f.given[(k, 0)] == Null
    ensures forall k: nat, st: nat :: st > 0 && Start(k, st) in f.control.log ==>
              (k, st) in f.given && (k, st - 1) in f.returned && f.given[(k, st)] == f.returned[(k, st - 1)]
    ensures forall k: nat, st: nat :: (k, st) in f.returned && st + 1 < f.control.nSteps ==>
              (Pass(k, st) in f.control.log <==> f.returned[(k, st)].Value?)
  {
    hide Inv, Kept;
    assert forall k: nat, st: nat :: (k, st) in f.given ==> Handed(f, k, st);
  }

  /**
   In every run, whoever the workers are that carry a batch: the first step is given null, each
   later step what the step before it returned for the same batch, and a batch goes on to the
   next step exactly if that is not null.
   */
  lemma DataFollowsBatch(nThreads: int, nSteps: nat, moves: seq<Move>, f: Flow)
    requires Flows(FlowInit(nThreads, nSteps), moves, f)
    ensures Run(Init(nThreads, nSteps), Actions(moves), f.control)
    ensures forall k: nat :: Start(k, 0) in f.control.log ==> (k, 0) in f.given && f.given[(k, 0)] == Null
    ensures forall k: nat, st: nat :: st > 0 && Start(k, st) in f.control.log ==>
              (k, st) in f.given && (k, st - 1) in f.returned && f.given[(k, st)] == f.returned[(k, st - 1)]
    ensures forall k: nat, st: nat :: (k, st) in f.returned && st + 1 < nSteps ==>
              (Pass(k, st) in f.control.log <==> f.returned[(k, st)].Value?)
  {
    FlowsRun(FlowInit(nThreads, nSteps), moves, f);
    FlowStart(nThreads, nSteps);
    FlowRun(FlowInit(nThreads, nSteps), moves, f);
    hide Run, Flows, Actions, Init, FlowInit;
    WhatFlows(f);
  }
}
