/**
 ext/klib/kthread.c, kt_for: a parallel loop whose threads take every n_threads-th index
 and steal from the others afterwards. Each atomic fetch-and-add, each plain counter read
 and each call of the loop body is one action; any interleaving of them is a run.
 */
module KtFor {
  import opened Probing
  import opened Sums

  datatype Minimum = None | Some(value: nat, at: nat)

  /**
   Where a thread is: fetching from its own counter, about to call the body, choosing a victim, or
   fetching from it. A counter that is less than the least one so far is read a second time.
   */
  datatype Pc =
    | Own
    | Calling(k: nat, own: bool)
    | Scanning(pos: nat, min: Minimum)
    | Noting(pos: nat)
    | Stealing(victim: nat)
    | Exited

  datatype State = State(n: nat, counters: seq<nat>, pcs: seq<Pc>, called: multiset<nat>)

  function Init(nThreads: nat, n: nat): State {
    State(n, seq(nThreads, i => i), seq(nThreads, i => Own), multiset{})
  }

  ghost predicate Shape(s: State) {
    && |s.counters| == |s.pcs|
    && forall t :: 0 <= t < |s.pcs| ==> PcShape(s.pcs[t], |s.counters|)
  }

  predicate PcShape(pc: Pc, nThreads: nat) {
    match pc
    case Scanning(pos, min) => pos < nThreads && (min.Some? ==> min.at < pos) && (pos > 0 ==> min.Some?)
    case Noting(pos) => pos < nThreads
    case Stealing(victim) => victim < nThreads
    case _ => true
  }

  predicate CanStep(s: State, t: nat) {
    t < |s.pcs| && !s.pcs[t].Exited?
  }

  /** One fetch-and-add of n_threads on counter `i`. */
  function FetchAdd(s: State, i: nat): State
    requires i < |s.counters|
  {
    s.(counters := s.counters[i := s.counters[i] + |s.counters|])
  }

  /** After counter `pos`: the next one, or the victim. */
  function Beyond(pos: nat, min: Minimum, nThreads: nat): Pc
    requires min.Some?
  {
    if pos + 1 == nThreads then Stealing(min.at) else Scanning(pos + 1, min)
  }

  /** The next action of thread `t`. */
  function Next(s: State, t: nat): State
    requires Shape(s) && CanStep(s, t)
  {
    match s.pcs[t]
    case Own =>
      var k := s.counters[t];
      FetchAdd(s, t).(pcs := s.pcs[t := if k >= s.n then Scanning(0, None) else Calling(k, true)])
    case Calling(k, own) =>
      s.(called := s.called + multiset{k}, pcs := s.pcs[t := if own then Own else Scanning(0, None)])
    case Scanning(pos, min) =>
      s.(pcs := s.pcs[t := if min.None? || min.value > s.counters[pos] then Noting(pos) else Beyond(pos, min, |s.counters|)])
    case Noting(pos) =>
      s.(pcs := s.pcs[t := Beyond(pos, Some(s.counters[pos], pos), |s.counters|)])
    case Stealing(victim) =>
      var k := s.counters[victim];
      FetchAdd(s, victim).(pcs := s.pcs[t := if k >= s.n then Exited else Calling(k, false)])
  }

  /** `schedule` names the thread that moves at each point. */
  ghost predicate Run(s: State, schedule: seq<nat>, t: State)
    decreases |schedule|
  {
    && Shape(s)
    && if schedule == [] then s == t
       else CanStep(s, schedule[0]) && Run(Next(s, schedule[0]), schedule[1..], t)
  }

  // ---- every index once -------------------------------------------------------

  /** How many threads are about to call the body for `k`. */
  function Claims(pcs: seq<Pc>, k: nat): nat {
    if pcs == [] then 0
    else Claims(pcs[..|pcs| - 1], k) + Claim(pcs[|pcs| - 1], k)
  }

  function Claim(pc: Pc, k: nat): nat {
    if pc.Calling? && pc.k == k then 1 else 0
  }

  lemma {:induction false} ClaimsUpdate(pcs: seq<Pc>, t: nat, pc: Pc, k: nat)
    requires t < |pcs|
    ensures Claims(pcs[t := pc], k) == Claims(pcs, k) - Claim(pcs[t], k) + Claim(pc, k)
  {
    var m := |pcs| - 1;
    if t < m {
      ClaimsUpdate(pcs[..m], t, pc, k);
      assert pcs[t := pc][..m] == pcs[..m][t := pc];
    } else {
      assert pcs[t := pc][..m] == pcs[..m];
    }
  }

  lemma {:induction false} NoClaims(pcs: seq<Pc>, k: nat)
    requires forall t :: 0 <= t < |pcs| ==> Claim(pcs[t], k) == 0
    ensures Claims(pcs, k) == 0
  {
    if pcs != [] {
      NoClaims(pcs[..|pcs| - 1], k);
    }
  }

  /** The index has been fetched: its residue class has a counter beyond it. */
  predicate Fetched(s: State, k: nat)
    requires |s.counters| > 0
  {
    k < s.n && k < s.counters[Residue(k, |s.counters|)]
  }

  function Residue(k: nat, m: nat): (r: nat)
    requires m > 0
    ensures r < m
  {
    k % m
  }

  ghost predicate Accounted(s: State, k: nat)
    requires |s.counters| > 0
  {
    s.called[k] + Claims(s.pcs, k) == if Fetched(s, k) then 1 else 0
  }

  ghost predicate Inv(s: State) {
    && Shape(s) && |s.counters| > 0
    && (forall r :: 0 <= r < |s.counters| ==> Residue(s.counters[r], |s.counters|) == r)
    // a thread that is done with its own indices has a counter beyond the end
    && (forall t :: 0 <= t < |s.pcs| && !s.pcs[t].Own? && !(s.pcs[t].Calling? && s.pcs[t].own) ==> s.counters[t] >= s.n)
    && (forall k: nat :: Accounted(s, k))
  }

  lemma InvInit(nThreads: nat, n: nat)
    requires nThreads > 0
    ensures Inv(Init(nThreads, n))
  {
    var s := Init(nThreads, n);
    forall r | 0 <= r < nThreads
      ensures Residue(s.counters[r], nThreads) == r
    {
      SmallResidue(r, nThreads);
    }
    forall k: nat
      ensures Accounted(s, k)
    {
      NoClaims(s.pcs, k);
      ResidueAtMost(k, nThreads);
    }
  }

  lemma ResidueAtMost(k: nat, m: nat)
    requires m > 0
    ensures Residue(k, m) <= k
  {
  }

  /** A fetch-and-add fetches exactly one index, and none that was fetched before. */
  lemma FetchOne(s: State, i: nat, k: nat)
    requires i < |s.counters| && Residue(s.counters[i], |s.counters|) == i
    ensures Residue(s.counters[i] + |s.counters|, |s.counters|) == i
    ensures Fetched(FetchAdd(s, i), k) <==> Fetched(s, k) || (k == s.counters[i] && k < s.n)
    ensures k == s.counters[i] ==> !Fetched(s, k)
  {
    var m, c := |s.counters|, s.counters[i];
    ModEqual(c + m, c, m);
    MultipleMod1(m);
    if Residue(k, m) == i && c <= k < c + m {
      ModEqual(k, c, m);
      SmallMod(k - c, m);
    }
  }

  lemma MultipleMod1(m: nat)
    requires m > 0
    ensures m % m == 0
  {
  }

  lemma InvNext(s: State, t: nat)
    requires Inv(s) && CanStep(s, t)
    ensures Inv(Next(s, t))
  {
    hide Residue, Fetched;
    var u := Next(s, t);
    var pc := s.pcs[t];
    if pc.Own? || pc.Stealing? {
      FetchOne(s, if pc.Own? then t else pc.victim, 0);
    }
    forall k: nat
      ensures Accounted(u, k)
    {
      assert Accounted(s, k);
      ClaimsUpdate(s.pcs, t, u.pcs[t], k);
      if pc.Own? || pc.Stealing? {
        FetchOne(s, if pc.Own? then t else pc.victim, k);
        SameFetched(FetchAdd(s, if pc.Own? then t else pc.victim), u, k);
      } else {
        SameFetched(s, u, k);
      }
    }
  }

  lemma SameFetched(s: State, u: State, k: nat)
    requires |s.counters| > 0 && u.counters == s.counters && u.n == s.n
    ensures Fetched(u, k) == Fetched(s, k)
  {
  }

  lemma {:induction false} InvRun(s: State, schedule: seq<nat>, t: State)
    requires Inv(s) && Run(s, schedule, t)
    ensures Inv(t)
    decreases |schedule|
  {
    if schedule != [] {
      InvNext(s, schedule[0]);
      InvRun(Next(s, schedule[0]), schedule[1..], t);
    }
  }

  /**
   In every interleaving the body is called at most once per index and for no index outside
   the range, although victims are chosen from stale reads; and once all threads have
   exited it has been called exactly once for every index.
   */
  lemma EachIndexOnce(nThreads: nat, n: nat, schedule: seq<nat>, t: State)
    requires nThreads > 0 && Run(Init(nThreads, n), schedule, t)
    ensures forall k: nat :: t.called[k] <= if k < n then 1 else 0
    ensures (forall i :: 0 <= i < |t.pcs| ==> t.pcs[i].Exited?) ==> forall k: nat :: t.called[k] == if k < n then 1 else 0
  {
    InvInit(nThreads, n);
    InvRun(Init(nThreads, n), schedule, t);
    RunKeepsRange(Init(nThreads, n), schedule, t);
    forall k: nat
      ensures t.called[k] <= if k < n then 1 else 0
      ensures (forall i :: 0 <= i < |t.pcs| ==> t.pcs[i].Exited?) ==> t.called[k] == if k < n then 1 else 0
    {
      assert Accounted(t, k);
      if forall i :: 0 <= i < |t.pcs| ==> t.pcs[i].Exited? {
        NoClaims(t.pcs, k);
      }
    }
  }

  lemma {:induction false} RunKeepsRange(s: State, schedule: seq<nat>, t: State)
    requires Run(s, schedule, t)
    ensures t.n == s.n
    decreases |schedule|
  {
    if schedule != [] {
      RunKeepsRange(Next(s, schedule[0]), schedule[1..], t);
    }
  }

  // ---- every run ends ---------------------------------------------------------

  /** What a counter still has to offer. */
  function Left(n: nat, c: nat): nat {
    if c < n then n - c else 0
  }

  function Lefts(s: State): (r: seq<nat>)
    ensures |r| == |s.counters|
  {
    seq(|s.counters|, i requires 0 <= i < |s.counters| => Left(s.n, s.counters[i]))
  }

  /** How far a thread is from exiting, as long as it fetches nothing more. */
  function Rank(pc: Pc, nThreads: nat): nat {
    match pc
    case Calling(_, _) => 2 * nThreads + 4
    case Own => 2 * nThreads + 3
    case Scanning(pos, _) => if pos < nThreads then 2 * (nThreads - pos) + 2 else 2
    case Noting(pos) => if pos < nThreads then 2 * (nThreads - pos) + 1 else 2
    case Stealing(_) => 1
    case Exited => 0
  }

  function Ranks(s: State): (r: seq<nat>)
    ensures |r| == |s.pcs|
  {
    seq(|s.pcs|, i requires 0 <= i < |s.pcs| => Rank(s.pcs[i], |s.counters|))
  }

  function Measure(s: State): nat {
    (2 * |s.counters| + 5) * Sum(Lefts(s)) + Sum(Ranks(s))
  }

  lemma StepRanks(s: State, t: nat)
    requires Shape(s) && CanStep(s, t)
    ensures Sum(Ranks(Next(s, t))) < Sum(Ranks(s)) + if Next(s, t).pcs[t].Calling? then 2 * |s.counters| + 5 else 0
  {
    hide Sum;
    var u, m := Next(s, t), |s.counters|;
    var rank := Rank(u.pcs[t], m);
    assert Ranks(u) == Ranks(s)[t := rank];
    SumUpdate(Ranks(s), t, rank);
  }

  lemma StepLefts(s: State, t: nat)
    requires Shape(s) && CanStep(s, t)
    ensures Sum(Lefts(Next(s, t))) <= Sum(Lefts(s))
    ensures Next(s, t).pcs[t].Calling? ==> Sum(Lefts(Next(s, t))) < Sum(Lefts(s))
  {
    hide Sum;
    var u, pc := Next(s, t), s.pcs[t];
    if pc.Own? || pc.Stealing? {
      var i := if pc.Own? then t else pc.victim;
      var left := Left(s.n, u.counters[i]);
      assert Lefts(u) == Lefts(s)[i := left];
      SumUpdate(Lefts(s), i, left);
    } else {
      assert Lefts(u) == Lefts(s);
    }
  }

  /** An action either fetches an index, and little else gets worse, or brings its thread closer to exiting. */
  lemma StepSums(s: State, t: nat)
    requires Shape(s) && CanStep(s, t)
    ensures var u := Next(s, t);
      if u.pcs[t].Calling? then
        Sum(Lefts(u)) < Sum(Lefts(s)) && Sum(Ranks(u)) < Sum(Ranks(s)) + 2 * |s.counters| + 5
      else
        Sum(Lefts(u)) <= Sum(Lefts(s)) && Sum(Ranks(u)) < Sum(Ranks(s))
  {
    hide Sum, Lefts, Ranks;
    StepRanks(s, t);
    StepLefts(s, t);
  }

  /** Every action brings every run closer to its end, so no schedule runs for ever. */
  lemma StepDescends(s: State, t: nat)
    requires Shape(s) && CanStep(s, t)
    ensures Measure(Next(s, t)) < Measure(s)
  {
    StepSums(s, t);
    hide Sum, Lefts, Ranks;
    WeightedStep(2 * |s.counters| + 5, Sum(Lefts(s)), Sum(Lefts(Next(s, t))));
  }

  lemma WeightedStep(w: nat, a: nat, b: nat)
    requires b <= a
    ensures w * b <= w * a
    ensures b < a ==> w * b + w <= w * a
  {
    var d := a - b;
    assert w * a == w * b + w * d;
    if d > 0 {
      assert w * d == w + w * (d - 1);
      assert w * (d - 1) >= 0;
    }
  }

  lemma {:induction false} RunsAreFinite(s: State, schedule: seq<nat>, t: State)
    requires Run(s, schedule, t)
    ensures |schedule| + Measure(t) <= Measure(s)
    decreases |schedule|
  {
    hide Measure;
    if schedule != [] {
      StepDescends(s, schedule[0]);
      RunsAreFinite(Next(s, schedule[0]), schedule[1..], t);
    }
  }

  // ---- a thread that moves alone ------------------------------------------------

  function Repeat(t: nat, k: nat): seq<nat> {
    if k == 0 then [] else [t] + Repeat(t, k - 1)
  }

  lemma RepeatMore(t: nat, k: nat)
    ensures Repeat(t, k + 1)[0] == t && Repeat(t, k + 1)[1..] == Repeat(t, k) && |Repeat(t, k + 1)| == |Repeat(t, k)| + 1
  {
  }

  lemma ShapeNext(s: State, t: nat)
    requires Shape(s) && CanStep(s, t)
    ensures Shape(Next(s, t))
  {
  }

  lemma {:induction false} RepeatConcat(s: State, t: nat, j: nat, mid: State, k: nat, u: State)
    requires Run(s, Repeat(t, j), mid) && Run(mid, Repeat(t, k), u)
    ensures Run(s, Repeat(t, j + k), u)
    decreases j
  {
    hide Next;
    if j > 0 {
      RepeatMore(t, j - 1);
      RepeatMore(t, j - 1 + k);
      RepeatConcat(Next(s, t), t, j - 1, mid, k, u);
    }
  }

  lemma OneMove(s: State, t: nat)
    requires Shape(s) && CanStep(s, t)
    ensures Run(s, Repeat(t, 1), Next(s, t))
  {
    ShapeNext(s, t);
    hide Next, Shape;
    RepeatMore(t, 0);
    assert Run(Next(s, t), [], Next(s, t));
  }

  /** Counter `v` is the first of the least among the first `n`. */
  ghost predicate FirstLeast(c: seq<nat>, n: nat, v: nat) {
    && v < n <= |c|
    && (forall j :: 0 <= j < n ==> c[v] <= c[j])
    && (forall j :: 0 <= j < v ==> c[v] < c[j])
  }

  /** The counters before `pos` have been looked at. */
  ghost predicate Looked(s: State, t: nat, pos: nat, min: Minimum) {
    && t < |s.pcs| && s.pcs[t] == Scanning(pos, min)
    && (pos == 0 ==> min.None?)
    && (pos > 0 ==> min.Some? && FirstLeast(s.counters, pos, min.at) && min.value == s.counters[min.at])
  }

  /** One counter more: it is read, and read again if it is less than those before it. */
  lemma LookAlone(s: State, t: nat, pos: nat, min: Minimum) returns (k: nat, least: Minimum)
    requires Shape(s) && Looked(s, t, pos, min) && pos < |s.counters|
    ensures least.Some? && FirstLeast(s.counters, pos + 1, least.at) && least.value == s.counters[least.at]
    ensures Run(s, Repeat(t, k), s.(pcs := s.pcs[t := Beyond(pos, least, |s.counters|)])) && k > 0
  {
    OneMove(s, t);
    var u := Next(s, t);
    if min.None? || min.value > s.counters[pos] {
      ShapeNext(s, t);
      OneMove(u, t);
      least := Some(s.counters[pos], pos);
      assert Next(u, t) == s.(pcs := s.pcs[t := Beyond(pos, least, |s.counters|)]);
      hide Next, Shape, Beyond;
      RepeatConcat(s, t, 1, u, 1, Next(u, t));
      k := 2;
    } else {
      k, least := 1, min;
    }
  }

  /** Alone, a thread finds the first of the least counters. */
  lemma {:induction false} ScanAlone(s: State, t: nat, pos: nat, min: Minimum) returns (k: nat, v: nat)
    requires Shape(s) && Looked(s, t, pos, min) && pos < |s.counters|
    ensures FirstLeast(s.counters, |s.counters|, v)
    ensures Run(s, Repeat(t, k), s.(pcs := s.pcs[t := Stealing(v)])) && k > 0
    decreases |s.counters| - pos
  {
    hide Next, FirstLeast;
    var j, least := LookAlone(s, t, pos, min);
    if pos + 1 == |s.counters| {
      k, v := j, least.at;
    } else {
      var u := s.(pcs := s.pcs[t := Scanning(pos + 1, least)]);
      LeastInRange(s.counters, pos + 1, least.at);
      var i;
      i, v := ScanAlone(u, t, pos + 1, least);
      assert u.pcs[t := Stealing(v)] == s.pcs[t := Stealing(v)];
      RepeatConcat(s, t, j, u, i, s.(pcs := s.pcs[t := Stealing(v)]));
      k := j + i;
    }
  }

  lemma LeastInRange(c: seq<nat>, n: nat, v: nat)
    requires FirstLeast(c, n, v)
    ensures v < n <= |c| && forall j :: 0 <= j < n ==> c[v] <= c[j]
  {
  }

  /**
   `steal_work` with no other thread moving: it takes the index of the first of the least
   counters, and gives up only if no counter has an index left.
   */
  lemma StealAlone(s: State, t: nat) returns (k: nat, u: State, v: nat)
    requires Shape(s) && t < |s.pcs| && s.pcs[t] == Scanning(0, None)
    ensures Run(s, Repeat(t, k), u) && k > 0
    ensures FirstLeast(s.counters, |s.counters|, v)
    ensures u.n == s.n && u.called == s.called && u.counters == s.counters[v := s.counters[v] + |s.counters|]
    ensures u.pcs == s.pcs[t := if s.counters[v] < s.n then Calling(s.counters[v], false) else Exited]
    ensures u.pcs[t] == Exited ==> forall i :: 0 <= i < |s.counters| ==> s.counters[i] >= s.n
  {
    k, v := ScanAlone(s, t, 0, None);
    LeastInRange(s.counters, |s.counters|, v);
    var mid := s.(pcs := s.pcs[t := Stealing(v)]);
    OneMove(mid, t);
    u := Next(mid, t);
    assert mid.pcs[t := u.pcs[t]] == s.pcs[t := u.pcs[t]];
    RepeatConcat(s, t, k, mid, 1, u);
    k := k + 1;
  }

  /** The thread is at the head of one of its two loops, or about to call the body. */
  predicate AtHead(pc: Pc) {
    pc.Own? || pc.Calling? || pc == Scanning(0, None)
  }

  /**
   A thread that moves alone takes over all the indices that are left: when it exits, every
   index has been called, but for those that the other threads are about to call.
   */
  lemma {:induction false} AloneFinishes(s: State, t: nat) returns (k: nat, u: State)
    requires Inv(s) && t < |s.pcs| && AtHead(s.pcs[t])
    ensures Run(s, Repeat(t, k), u) && Inv(u) && u.n == s.n && |u.counters| == |s.counters|
    ensures u.pcs == s.pcs[t := Exited]
    ensures forall i: nat :: i < s.n ==> u.called[i] + Claims(s.pcs[t := Exited], i) == 1
    decreases Measure(s)
  {
    hide Next, Measure, Claims, Accounted, Beyond, Residue, Fetched, FirstLeast;
    var j, mid, done := MoveAlone(s, t);
    InvRun(s, Repeat(t, j), mid);
    if done {
      k, u := j, mid;
      AllTaken(u, t);
    } else {
      RunsAreFinite(s, Repeat(t, j), mid);
      RepeatMore(t, j - 1);
      var i;
      i, u := AloneFinishes(mid, t);
      assert mid.pcs[t := Exited] == s.pcs[t := Exited];
      RepeatConcat(s, t, j, mid, i, u);
      k := j + i;
    }
  }

  /** From the head of a loop to the next. */
  lemma MoveAlone(s: State, t: nat) returns (k: nat, u: State, done: bool)
    requires Inv(s) && t < |s.pcs| && AtHead(s.pcs[t])
    ensures Run(s, Repeat(t, k), u) && k > 0 && u.n == s.n && |u.counters| == |s.counters|
    ensures |u.pcs| == |s.pcs| && u.pcs == s.pcs[t := u.pcs[t]]
    ensures done ==> u.pcs[t] == Exited && forall i :: 0 <= i < |u.counters| ==> u.counters[i] >= u.n
    ensures !done ==> AtHead(u.pcs[t])
  {
    if s.pcs[t] == Scanning(0, None) {
      var v;
      k, u, v := StealAlone(s, t);
      done := u.pcs[t].Exited?;
    } else {
      OneMove(s, t);
      k, u, done := 1, Next(s, t), false;
    }
  }

  /** With all counters beyond the end, every index was fetched. */
  lemma AllTaken(u: State, t: nat)
    requires Inv(u) && t < |u.pcs| && forall i :: 0 <= i < |u.counters| ==> u.counters[i] >= u.n
    ensures forall i: nat :: i < u.n ==> u.called[i] + Claims(u.pcs, i) == 1
  {
    forall i: nat | i < u.n
      ensures u.called[i] + Claims(u.pcs, i) == 1
    {
      assert Accounted(u, i);
    }
  }
}
