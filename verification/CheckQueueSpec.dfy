/** The check queue as a protocol: one master and any number of workers, interleaved at the points
    where the mutex is taken or released. */
module CheckQueueSpec {
  import opened Wrappers

  datatype Check = Check(id: nat, passes: bool)

  /** The fields that the mutex protects. */
  datatype Shared = Shared(queue: seq<Check>, nIdle: int, nTotal: int, fAllOk: bool, nTodo: int, nBatchSize: nat)

  /** What a thread does after its turn with the mutex. */
  datatype Outcome = Return(fRet: bool) | Wait | Work(batch: seq<Check>, fOk: bool)

  /** The number of checks to take: at least one, at most a batch, and a fair share. */
  function BatchSize(sh: Shared): (n: int)
    requires sh.queue != [] && sh.nTotal >= 0 && sh.nIdle >= 0
    ensures 1 <= n <= |sh.queue|
  {
    Max(1, Min(sh.nBatchSize, |sh.queue| / (sh.nTotal + sh.nIdle + 1)))
  }

  /** The last `n` checks, latest first. */
  function LastOf(q: seq<Check>, n: nat): (b: seq<Check>)
    requires n <= |q|
    ensures |b| == n
  {
    seq(n, i requires 0 <= i < n => q[|q| - 1 - i])
  }

  /** The accounting for a finished batch. */
  function Finished(sh: Shared, nNow: nat, fOk: bool): Shared {
    sh.(fAllOk := sh.fAllOk && fOk, nTodo := sh.nTodo - nNow)
  }

  /** From the test of the queue to the release of the mutex. */
  function Proceed(sh: Shared, fMaster: bool): (Shared, Outcome)
    requires sh.nTotal >= 0 && sh.nIdle >= 0
  {
    if sh.queue == [] then
      if fMaster && sh.nTodo == 0 then (sh.(nTotal := sh.nTotal - 1, fAllOk := true), Return(sh.fAllOk))
      else (sh.(nIdle := sh.nIdle + 1), Wait)
    else
      var n := BatchSize(sh);
      (sh.(queue := sh.queue[..|sh.queue| - n]), Work(LastOf(sh.queue, n), sh.fAllOk))
  }

  // ----- threads

  datatype Thread =
    | Outside
    | Entering
    | Waiting(signalled: bool)
    | Running(batch: seq<Check>, done: nat, fOk: bool)

  /** `threads[0]` is the master. `added` and `finished` count checks since the last return of `Wait`,
      and `log` records what every `Wait` returned and which checks it was about. */
  datatype State = State(sh: Shared, threads: seq<Thread>, added: multiset<Check>, finished: multiset<Check>,
                         log: seq<(bool, multiset<Check>)>)

  datatype Step =
    | Add(checks: seq<Check>, woken: nat)
    | BeginWait
    | StartWorker(t: nat)
    | Lock(t: nat)      // take the mutex and run to its release
    | Execute(t: nat)   // evaluate one check of the own batch, unless one has failed
    | Spurious(t: nat)  // a wake-up that nobody asked for

  function Batch(t: Thread): multiset<Check> { if t.Running? then multiset(t.batch) else multiset{} }

  /** All checks that threads hold. */
  function InFlight(ts: seq<Thread>): multiset<Check> {
    if ts == [] then multiset{} else InFlight(ts[..|ts| - 1]) + Batch(ts[|ts| - 1])
  }

  function Total(ts: seq<Thread>, f: Thread -> nat): nat {
    if ts == [] then 0 else Total(ts[..|ts| - 1], f) + f(ts[|ts| - 1])
  }

  function IsWaiting(t: Thread): nat { if t.Waiting? then 1 else 0 }

  function IsInside(t: Thread): nat { if t.Waiting? || t.Running? then 1 else 0 }

  function SignalOne(ts: seq<Thread>, t: nat): seq<Thread> {
    if 0 < t < |ts| && ts[t].Waiting? then ts[t := Waiting(true)] else ts
  }

  function SignalWorkers(ts: seq<Thread>): (r: seq<Thread>)
    ensures |r| == |ts|
  {
    seq(|ts|, i requires 0 <= i < |ts| => if i > 0 && ts[i].Waiting? then Waiting(true) else ts[i])
  }

  function SignalMaster(ts: seq<Thread>): seq<Thread> {
    if |ts| > 0 && ts[0].Waiting? then ts[0 := Waiting(true)] else ts
  }

  predicate AllPass(m: multiset<Check>) { forall c <- m :: c.passes }

  ghost predicate Enabled(s: State, step: Step) {
    match step
    case Add(_, _) => |s.threads| > 0 && s.threads[0].Outside?
    case BeginWait => |s.threads| > 0 && s.threads[0].Outside?
    case StartWorker(t) => 0 < t < |s.threads| && s.threads[t].Outside?
    case Lock(t) => t < |s.threads| &&
      (s.threads[t].Entering? || s.threads[t] == Waiting(true) || (s.threads[t].Running? && s.threads[t].done == |s.threads[t].batch|))
    case Execute(t) => t < |s.threads| && s.threads[t].Running? && s.threads[t].done < |s.threads[t].batch|
    case Spurious(t) => t < |s.threads| && s.threads[t] == Waiting(false)
  }

  /** The shared fields when thread `t` has taken the mutex and accounted for where it comes from. */
  function Admitted(s: State, t: nat): Shared
    requires t < |s.threads|
  {
    match s.threads[t]
    case Entering => s.sh.(nTotal := s.sh.nTotal + 1)
    case Waiting(_) => s.sh.(nIdle := s.sh.nIdle - 1)
    case Running(batch, _, fOk) => Finished(s.sh, |batch|, fOk)
    case Outside => s.sh
  }

  function AfterOutcome(o: Outcome): Thread {
    match o
    case Return(_) => Outside
    case Wait => Waiting(false)
    case Work(batch, fOk) => Running(batch, 0, fOk)
  }

  function Next(s: State, step: Step): State
    requires Enabled(s, step)
    requires step.Lock? ==> Admitted(s, step.t).nTotal >= 0 && Admitted(s, step.t).nIdle >= 0
  {
    match step
    case Add(checks, woken) =>
      s.(sh := s.sh.(queue := s.sh.queue + checks, nTodo := s.sh.nTodo + |checks|),
         threads := if |checks| == 1 then SignalOne(s.threads, woken)
                    else if |checks| > 1 then SignalWorkers(s.threads) else s.threads,
         added := s.added + multiset(checks))
    case BeginWait => s.(threads := s.threads[0 := Entering])
    case StartWorker(t) => s.(threads := s.threads[t := Entering])
    case Spurious(t) => s.(threads := s.threads[t := Waiting(true)])
    case Execute(t) =>
      var r := s.threads[t];
      s.(threads := s.threads[t := r.(done := r.done + 1, fOk := r.fOk && r.batch[r.done].passes)])
    case Lock(t) =>
      var sh := Admitted(s, t);
      var wasBatch := s.threads[t].Running?;
      var ts := if wasBatch && sh.nTodo == 0 && t != 0 then SignalMaster(s.threads) else s.threads;
      var finished := s.finished + Batch(s.threads[t]);
      var (sh', o) := Proceed(sh, t == 0);
      if o.Return? then State(sh', ts[t := Outside], multiset{}, multiset{}, s.log + [(o.fRet, s.added)])
      else State(sh', ts[t := AfterOutcome(o)], s.added, finished, s.log)
  }

  // ----- the invariant

  ghost predicate ThreadOk(s: State, t: Thread) {
    t.Running? ==>
      && 0 < |t.batch| && t.done <= |t.batch|
      && (t.fOk ==> forall i | 0 <= i < t.done :: t.batch[i].passes)
      && (!t.fOk ==> !AllPass(s.added))
  }

  /** Every check is queued, with one thread, or finished; the first two are what is left to do. */
  predicate Conserved(s: State) {
    && s.sh.nTodo == |s.sh.queue| + |InFlight(s.threads)|
    && s.added == multiset(s.sh.queue) + InFlight(s.threads) + s.finished
  }

  ghost predicate Inv(s: State) {
    && |s.threads| > 0
    && Conserved(s)
    && s.sh.nIdle == Total(s.threads, IsWaiting) && s.sh.nTotal == Total(s.threads, IsInside)
    && (forall i | 0 <= i < |s.threads| :: ThreadOk(s, s.threads[i]))
    && (s.sh.fAllOk ==> AllPass(s.finished)) && (!s.sh.fAllOk ==> !AllPass(s.added))
    && (s.threads[0].Waiting? ==> s.sh.queue == [] && (!s.threads[0].signalled ==> s.sh.nTodo > 0))
    && (forall i | 0 <= i < |s.log| :: s.log[i].0 <==> AllPass(s.log[i].1))
  }

  // ----- sums over threads

  /** What all threads but `i` hold. */
  function Others(ts: seq<Thread>, i: nat): multiset<Check>
    requires i < |ts|
  {
    InFlight(ts[i := Outside])
  }

  lemma {:induction false} InFlightUpdate(ts: seq<Thread>, i: nat, t: Thread)
    requires i < |ts|
    ensures InFlight(ts[i := t]) == Others(ts, i) + Batch(t)
  {
    hide Batch;
    var n := |ts| - 1;
    if i < n {
      InFlightUpdate(ts[..n], i, t);
      assert ts[i := t][..n] == ts[..n][i := t] && ts[i := Outside][..n] == ts[..n][i := Outside];
      SumSwap(Others(ts[..n], i), Batch(t), Batch(ts[n]));
    } else {
      assert ts[i := t][..n] == ts[..n] && ts[i := Outside][..n] == ts[..n];
      OutsideIdle();
    }
  }

  lemma OutsideIdle()
    ensures Batch(Outside) == multiset{}
  {
  }

  lemma InFlightSplit(ts: seq<Thread>, i: nat)
    requires i < |ts|
    ensures InFlight(ts) == Others(ts, i) + Batch(ts[i])
  {
    hide InFlight;
    InFlightUpdate(ts, i, ts[i]);
    assert ts[i := ts[i]] == ts;
  }

  lemma {:induction false} TotalUpdate(ts: seq<Thread>, i: nat, t: Thread, f: Thread -> nat)
    requires i < |ts|
    ensures Total(ts[i := t], f) == Total(ts, f) - f(ts[i]) + f(t) && f(ts[i]) <= Total(ts, f)
  {
    var n := |ts| - 1;
    if i < n {
      TotalUpdate(ts[..n], i, t, f);
      assert ts[i := t][..n] == ts[..n][i := t];
    } else {
      assert ts[i := t][..n] == ts[..n];
    }
  }

  /** Signals change no batch and no count. */
  ghost predicate SameWork(ts: seq<Thread>, ts': seq<Thread>) {
    && |ts'| == |ts|
    && forall i | 0 <= i < |ts| :: ts'[i] == ts[i] || (ts[i].Waiting? && ts'[i].Waiting?)
  }

  lemma {:induction false} SameWorkSums(ts: seq<Thread>, ts': seq<Thread>)
    requires SameWork(ts, ts')
    ensures InFlight(ts') == InFlight(ts)
    ensures Total(ts', IsWaiting) == Total(ts, IsWaiting) && Total(ts', IsInside) == Total(ts, IsInside)
  {
    if ts != [] {
      SameWorkSums(ts[..|ts| - 1], ts'[..|ts| - 1]);
    }
  }

  lemma {:induction false} NoneRunning(ts: seq<Thread>, i: nat)
    requires i < |ts| && InFlight(ts) == multiset{} && ts[i].Running?
    ensures ts[i].batch == []
  {
    InFlightSplit(ts, i);
    assert multiset(ts[i].batch) == multiset{} && |multiset(ts[i].batch)| == |ts[i].batch|;
  }

  lemma {:induction false} SomeRunning(ts: seq<Thread>) returns (i: nat)
    requires |InFlight(ts)| > 0
    ensures i < |ts| && ts[i].Running?
  {
    var n := |ts| - 1;
    if ts[n].Running? { i := n; } else { i := SomeRunning(ts[..n]); }
  }

  lemma {:induction false} TakenFrom(q: seq<Check>, n: nat)
    requires n <= |q|
    ensures multiset(q[..|q| - n]) + multiset(LastOf(q, n)) == multiset(q)
  {
    if n == 0 {
      assert q[..|q|] == q;
    } else {
      TakenFrom(q, n - 1);
      var k := |q| - n;
      assert q[..k + 1] == q[..k] + [q[k]];
      assert LastOf(q, n) == LastOf(q, n - 1) + [q[k]];
    }
  }

  // ----- every step keeps the invariant

  lemma InitOk(nBatchSize: nat, workers: nat)
    ensures Inv(Init(nBatchSize, workers))
  {
    NobodyIn(Init(nBatchSize, workers).threads);
  }

  function Init(nBatchSize: nat, workers: nat): State {
    State(Shared([], 0, 0, true, 0, nBatchSize), seq(1 + workers, _ => Outside), multiset{}, multiset{}, [])
  }

  lemma {:induction false} NobodyIn(ts: seq<Thread>)
    requires forall i | 0 <= i < |ts| :: ts[i].Outside?
    ensures InFlight(ts) == multiset{} && Total(ts, IsWaiting) == 0 && Total(ts, IsInside) == 0
  {
    if ts != [] { NobodyIn(ts[..|ts| - 1]); }
  }

  lemma AddKeeps(s: State, checks: seq<Check>, woken: nat)
    requires Inv(s) && Enabled(s, Add(checks, woken))
    ensures Inv(Next(s, Add(checks, woken)))
  {
    var s' := Next(s, Add(checks, woken));
    assert SameWork(s.threads, s'.threads);
    SameWorkSums(s.threads, s'.threads);
    assert multiset(s.sh.queue + checks) == multiset(s.sh.queue) + multiset(checks);
    if !AllPass(s.added) { assert exists c <- s.added :: !c.passes; assert !AllPass(s'.added); }
    forall i | 0 <= i < |s'.threads| ensures ThreadOk(s', s'.threads[i]) { assert ThreadOk(s, s.threads[i]); }
  }

  lemma TurnKeeps(s: State, i: nat, t: Thread)
    requires Inv(s) && i < |s.threads| && SameTurn(s.threads[i], t)
    requires ThreadOk(s, t)
    ensures Inv(s.(threads := s.threads[i := t]))
  {
    hide InFlight, Total, AllPass;
    var s' := s.(threads := s.threads[i := t]);
    InFlightSplit(s.threads, i);
    InFlightUpdate(s.threads, i, t);
    TotalUpdate(s.threads, i, t, IsWaiting);
    TotalUpdate(s.threads, i, t, IsInside);
    assert InFlight(s'.threads) == InFlight(s.threads);
    forall j | 0 <= j < |s'.threads| ensures ThreadOk(s', s'.threads[j]) {
      assert ThreadOk(s, s.threads[j]);
    }
  }

  /** A change of one thread that neither moves checks nor changes who is waiting. */
  predicate SameTurn(t: Thread, t': Thread) {
    match t
    case Outside => t'.Entering?
    case Waiting(_) => t' == Waiting(true)
    case Running(batch, done, fOk) => t'.Running? && t'.batch == batch
    case Entering => false
  }

  lemma ExecuteKeeps(s: State, t: nat)
    requires Inv(s) && Enabled(s, Execute(t))
    ensures Inv(Next(s, Execute(t)))
  {
    hide InFlight, Total;
    var r := s.threads[t];
    assert ThreadOk(s, r);
    var r' := r.(done := r.done + 1, fOk := r.fOk && r.batch[r.done].passes);
    if r.fOk && !r'.fOk {
      InFlightSplit(s.threads, t);
      assert r.batch[r.done] in multiset(r.batch);
      assert r.batch[r.done] in s.added;
    }
    assert ThreadOk(s, r');
    TurnKeeps(s, t, r');
  }

  /** What holds once a thread has the mutex and has handed in what it held. */
  ghost predicate Holding(s: State, t: nat, sh: Shared, rest: multiset<Check>, fin: multiset<Check>)
    requires t < |s.threads|
  {
    && sh.queue == s.sh.queue && sh.nTodo == |sh.queue| + |rest| && sh.nBatchSize == s.sh.nBatchSize
    && rest == Others(s.threads, t) && s.added == multiset(sh.queue) + rest + fin
    && sh.nIdle == Total(s.threads, IsWaiting) - IsWaiting(s.threads[t]) >= 0
    && sh.nTotal == Total(s.threads, IsInside) - IsInside(s.threads[t]) + 1 >= 1
    && (sh.fAllOk ==> AllPass(fin)) && (!sh.fAllOk ==> !AllPass(s.added))
  }

  lemma Admission(s: State, t: nat)
    requires Inv(s) && Enabled(s, Lock(t))
    ensures Holding(s, t, Admitted(s, t), Others(s.threads, t), s.finished + Batch(s.threads[t]))
  {
    hide InFlight, Total;
    var r := s.threads[t];
    assert ThreadOk(s, r);
    InFlightSplit(s.threads, t);
    TotalUpdate(s.threads, t, Outside, IsWaiting);
    TotalUpdate(s.threads, t, Outside, IsInside);
    if r.Running? && r.fOk {
      forall c <- multiset(r.batch) ensures c.passes { assert c in r.batch; }
    }
  }

  /** The threads as they are when thread `t` goes on: a worker that finished the last check has signalled. */
  function Notified(s: State, t: nat): seq<Thread>
    requires t < |s.threads|
  {
    if s.threads[t].Running? && Admitted(s, t).nTodo == 0 && t != 0 then SignalMaster(s.threads) else s.threads
  }

  lemma NotifiedSums(s: State, t: nat, x: Thread)
    requires t < |s.threads|
    ensures |Notified(s, t)| == |s.threads| && Notified(s, t)[t] == s.threads[t]
    ensures InFlight(Notified(s, t)[t := x]) == Others(s.threads, t) + Batch(x)
    ensures Total(Notified(s, t)[t := x], IsWaiting) == Total(s.threads, IsWaiting) - IsWaiting(s.threads[t]) + IsWaiting(x)
    ensures Total(Notified(s, t)[t := x], IsInside) == Total(s.threads, IsInside) - IsInside(s.threads[t]) + IsInside(x)
  {
    hide InFlight, Total;
    var ts := Notified(s, t);
    assert SameWork(s.threads, ts);
    SameWorkSums(s.threads[t := Outside], ts[t := Outside]);
    SameWorkSums(s.threads, ts);
    InFlightUpdate(ts, t, x);
    TotalUpdate(ts, t, x, IsWaiting);
    TotalUpdate(ts, t, x, IsInside);
  }

  lemma OthersOk(s: State, s': State, t: nat)
    requires Inv(s) && t < |s.threads| && s'.added == s.added
    requires |s'.threads| == |s.threads| == |Notified(s, t)| && s'.threads == Notified(s, t)[t := s'.threads[t]]
    requires ThreadOk(s', s'.threads[t])
    ensures forall j | 0 <= j < |s'.threads| :: ThreadOk(s', s'.threads[j])
  {
    hide InFlight, Total, AllPass;
    forall j | 0 <= j < |s'.threads| ensures ThreadOk(s', s'.threads[j]) { assert ThreadOk(s, s.threads[j]); }
  }

  lemma NothingFails()
    ensures AllPass(multiset{})
  {
  }

  lemma LockReturns(s: State, t: nat)
    requires Inv(s) && Enabled(s, Lock(t)) && t == 0
    requires Admitted(s, t).queue == [] && Admitted(s, t).nTodo == 0
    requires Admitted(s, t).nTotal >= 0 && Admitted(s, t).nIdle >= 0
    ensures Inv(Next(s, Lock(t)))
    ensures Next(s, Lock(t)).log == s.log + [(AllPass(s.added), s.added)]
    ensures s.added == s.finished + Batch(s.threads[0])
  {
    hide InFlight, Total, AllPass, Others;
    var sh, s' := Admitted(s, 0), Next(s, Lock(0));
    Admission(s, 0);
    NotifiedSums(s, 0, Outside);
    NothingFails();
    assert Others(s.threads, 0) == multiset{};
    assert s.added == s.finished + Batch(s.threads[0]);
    assert InFlight(s'.threads) == multiset{};
    forall j | 0 <= j < |s'.threads| ensures ThreadOk(s', s'.threads[j]) {
      if s'.threads[j].Running? {
        assert ThreadOk(s, s.threads[j]);
        NoneRunning(s'.threads, j);
      }
    }
    assert sh.fAllOk <==> AllPass(s.added);
  }

  lemma LockWaits(s: State, t: nat)
    requires Inv(s) && Enabled(s, Lock(t))
    requires Admitted(s, t).queue == [] && (t != 0 || Admitted(s, t).nTodo != 0)
    requires Admitted(s, t).nTotal >= 0 && Admitted(s, t).nIdle >= 0
    ensures Inv(Next(s, Lock(t)))
  {
    hide InFlight, Total, AllPass;
    var s' := Next(s, Lock(t));
    Admission(s, t);
    NotifiedSums(s, t, Waiting(false));
    assert s'.threads == Notified(s, t)[t := Waiting(false)];
    OthersOk(s, s', t);
  }

  /** Moving the end of the queue into a batch conserves the checks. */
  lemma MoveConserves(q: seq<Check>, n: nat, rest: multiset<Check>, fin: multiset<Check>)
    requires n <= |q|
    ensures multiset(q[..|q| - n]) + (rest + multiset(LastOf(q, n))) + fin == multiset(q) + rest + fin
    ensures |q[..|q| - n]| + |rest + multiset(LastOf(q, n))| == |q| + |rest|
  {
    hide LastOf;
    TakenFrom(q, n);
    assert |multiset(LastOf(q, n))| == n;
  }

  lemma WorkState(s: State, t: nat, sh: Shared, n: int)
    requires Can(s, Lock(t)) && sh == Admitted(s, t) && sh.queue != [] && n == BatchSize(sh)
    ensures Next(s, Lock(t)) == State(sh.(queue := sh.queue[..|sh.queue| - n]),
                                      Notified(s, t)[t := Running(LastOf(sh.queue, n), 0, sh.fAllOk)],
                                      s.added, s.finished + Batch(s.threads[t]), s.log)
  {
  }

  lemma WorkConserves(s: State, t: nat, n: int)
    requires Inv(s) && Can(s, Lock(t)) && Admitted(s, t).queue != [] && n == BatchSize(Admitted(s, t))
    ensures Conserved(Next(s, Lock(t)))
  {
    hide InFlight, Others, Total, AllPass, LastOf, BatchSize, Next, Admitted, ThreadOk;
    var sh, s' := Admitted(s, t), Next(s, Lock(t));
    Admission(s, t);
    var rest, fin := Others(s.threads, t), s.finished + Batch(s.threads[t]);
    MoveConserves(sh.queue, n, rest, fin);
    NotifiedSums(s, t, Running(LastOf(sh.queue, n), 0, sh.fAllOk));
    WorkState(s, t, sh, n);
    assert InFlight(s'.threads) == rest + multiset(LastOf(sh.queue, n)) && s'.finished == fin;
  }

  lemma LockWorks(s: State, t: nat)
    requires Inv(s) && Can(s, Lock(t)) && Admitted(s, t).queue != []
    ensures Inv(Next(s, Lock(t)))
  {
    hide InFlight, Others, Total, AllPass, LastOf, BatchSize, Next, Conserved;
    var sh, s' := Admitted(s, t), Next(s, Lock(t));
    Admission(s, t);
    var n := BatchSize(sh);
    WorkConserves(s, t, n);
    NotifiedSums(s, t, Running(LastOf(sh.queue, n), 0, sh.fAllOk));
    WorkState(s, t, sh, n);
    OthersOk(s, s', t);
  }

  /** Every step of every thread keeps the invariant. */
  lemma StepKeeps(s: State, step: Step)
    requires Inv(s) && Enabled(s, step)
    ensures step.Lock? ==> Admitted(s, step.t).nTotal >= 0 && Admitted(s, step.t).nIdle >= 0
    ensures Inv(Next(s, step))
  {
    hide InFlight, Total, AllPass, Inv;
    match step
    case Add(checks, woken) => AddKeeps(s, checks, woken);
    case BeginWait => TurnKeeps(s, 0, Entering);
    case StartWorker(t) => TurnKeeps(s, t, Entering);
    case Spurious(t) => TurnKeeps(s, t, Waiting(true));
    case Execute(t) => ExecuteKeeps(s, t);
    case Lock(t) =>
      Admission(s, t);
      if Admitted(s, t).queue != [] { LockWorks(s, t); }
      else if t == 0 && Admitted(s, t).nTodo == 0 { LockReturns(s, t); }
      else { LockWaits(s, t); }
  }

  // ----- runs

  ghost predicate Can(s: State, step: Step) {
    Enabled(s, step) && (step.Lock? ==> Admitted(s, step.t).nTotal >= 0 && Admitted(s, step.t).nIdle >= 0)
  }

  ghost predicate Follows(s: State, steps: seq<Step>)
    decreases |steps|
  {
    steps == [] || (Can(s, steps[0]) && Follows(Next(s, steps[0]), steps[1..]))
  }

  ghost function After(s: State, steps: seq<Step>): State
    requires Follows(s, steps)
    decreases |steps|
  {
    if steps == [] then s else After(Next(s, steps[0]), steps[1..])
  }

  /** The invariant holds in every state that any interleaving can reach. */
  lemma {:induction false} RunKeeps(s: State, steps: seq<Step>)
    requires Inv(s) && Follows(s, steps)
    ensures Inv(After(s, steps))
    decreases |steps|
  {
    hide Inv, Next;
    if steps != [] {
      StepKeeps(s, steps[0]);
      RunKeeps(Next(s, steps[0]), steps[1..]);
    }
  }

  /** What the invariant means to the users of the queue, in every reachable state. */
  lemma Safety(nBatchSize: nat, workers: nat, steps: seq<Step>)
    requires Follows(Init(nBatchSize, workers), steps)
    ensures var s := After(Init(nBatchSize, workers), steps);
            && s.sh.nTodo == |s.sh.queue| + |InFlight(s.threads)|
            && s.added == multiset(s.sh.queue) + InFlight(s.threads) + s.finished
            && (forall i | 0 <= i < |s.log| :: s.log[i].0 <==> AllPass(s.log[i].1))
  {
    InitOk(nBatchSize, workers);
    RunKeeps(Init(nBatchSize, workers), steps);
  }

  /** A master that waits without a signal has somebody else's batch to wait for. */
  lemma MasterWaitsForWork(s: State) returns (t: nat)
    requires Inv(s) && s.threads[0] == Waiting(false)
    ensures 0 < t < |s.threads| && s.threads[t].Running?
  {
    t := SomeRunning(s.threads);
  }

  /** The worker that completes the last check wakes the master. */
  lemma LastBatchWakes(s: State, t: nat)
    requires Inv(s) && Enabled(s, Lock(t)) && t != 0 && s.threads[t].Running?
    requires s.threads[0].Waiting? && s.sh.nTodo == |s.threads[t].batch|
    ensures Can(s, Lock(t)) && Next(s, Lock(t)).threads[0] == Waiting(true)
  {
    hide InFlight, Total, AllPass;
    Admission(s, t);
  }

  // ----- the master always gets its answer

  /** What a thread can still do by itself. */
  function Effort(t: Thread): nat {
    match t
    case Outside => 2
    case Entering => 1
    case Waiting(signalled) => if signalled then 1 else 0
    case Running(batch, done, _) => if done <= |batch| then 2 * |batch| - done else 0
  }

  /** Bounds the steps until the master returns, unless threads wake up for no reason. */
  function Measure(s: State): nat {
    3 * |s.sh.queue| + Total(s.threads, Effort) + if s.sh.nTodo > 0 then 1 else 0
  }

  /** The master is not in `Wait`. */
  predicate MasterOut(s: State) { |s.threads| > 0 && s.threads[0].Outside? }

  /** The step ends the wait, or brings its end nearer. */
  ghost predicate Advances(s: State, step: Step) {
    && Can(s, step)
    && var s' := Next(s, step);
       if MasterOut(s') then |s'.log| == |s.log| + 1 else s'.log == s.log && Measure(s') < Measure(s)
  }

  lemma ExecuteProgress(s: State, t: nat)
    requires Inv(s) && Enabled(s, Execute(t))
    ensures Measure(Next(s, Execute(t))) < Measure(s)
  {
    hide InFlight, Total, AllPass;
    assert ThreadOk(s, s.threads[t]);
    TotalUpdate(s.threads, t, Next(s, Execute(t)).threads[t], Effort);
  }

  /** Only the last batch wakes anybody, and only the master. */
  lemma NotifiedEffort(s: State, t: nat)
    requires t < |s.threads|
    ensures |Notified(s, t)| == |s.threads| && Notified(s, t)[t] == s.threads[t]
    ensures Total(Notified(s, t), Effort) <= Total(s.threads, Effort) + if s.threads[t].Running? && Admitted(s, t).nTodo == 0 then 1 else 0
  {
    hide Total;
    if s.threads[0].Waiting? { TotalUpdate(s.threads, 0, Waiting(true), Effort); }
  }

  lemma WaitState(s: State, t: nat, sh: Shared)
    requires Can(s, Lock(t)) && sh == Admitted(s, t) && sh.queue == [] && (t != 0 || sh.nTodo != 0)
    ensures Next(s, Lock(t)) == State(sh.(nIdle := sh.nIdle + 1), Notified(s, t)[t := Waiting(false)],
                                      s.added, s.finished + Batch(s.threads[t]), s.log)
  {
  }

  lemma WorkProgress(s: State, t: nat)
    requires Inv(s) && Can(s, Lock(t)) && Admitted(s, t).queue != []
    ensures Measure(Next(s, Lock(t))) < Measure(s)
  {
    hide InFlight, Total, AllPass, LastOf, BatchSize, Next, Notified, ThreadOk, Conserved;
    var sh := Admitted(s, t);
    Admission(s, t);
    var n := BatchSize(sh);
    WorkState(s, t, sh, n);
    NotifiedEffort(s, t);
    TotalUpdate(Notified(s, t), t, Running(LastOf(sh.queue, n), 0, sh.fAllOk), Effort);
    TodoLeft(s, t);
  }

  /** With checks left in the queue there is something to do, before and after the turn. */
  lemma TodoLeft(s: State, t: nat)
    requires Inv(s) && Enabled(s, Lock(t))
    ensures Admitted(s, t).queue == s.sh.queue && (s.sh.queue != [] ==> 0 < Admitted(s, t).nTodo && 0 < s.sh.nTodo)
    ensures s.threads[t].Running? ==> s.sh.nTodo > 0 && Effort(s.threads[t]) >= 1
  {
    hide InFlight, Total, AllPass;
    Admission(s, t);
    assert ThreadOk(s, s.threads[t]);
  }

  lemma WaitProgress(s: State, t: nat)
    requires Inv(s) && Can(s, Lock(t)) && Admitted(s, t).queue == [] && (t != 0 || Admitted(s, t).nTodo != 0)
    ensures Measure(Next(s, Lock(t))) < Measure(s)
  {
    hide InFlight, Total, AllPass, Next, Notified, ThreadOk, Conserved, Inv;
    var sh := Admitted(s, t);
    WaitState(s, t, sh);
    NotifiedEffort(s, t);
    TotalUpdate(Notified(s, t), t, Waiting(false), Effort);
    TodoLeft(s, t);
  }

  /** A turn with the mutex makes progress or lets the master return. */
  lemma LockProgress(s: State, t: nat)
    requires Inv(s) && Enabled(s, Lock(t)) && !MasterOut(s)
    ensures Advances(s, Lock(t))
  {
    hide InFlight, Total, AllPass, LastOf, BatchSize, Measure, Inv, ThreadOk, Conserved;
    LockAllowed(s, t);
    if Admitted(s, t).queue != [] {
      WorkProgress(s, t);
    } else if t != 0 || Admitted(s, t).nTodo != 0 {
      WaitProgress(s, t);
    }
    LockLogs(s, t);
  }

  lemma LockAllowed(s: State, t: nat)
    requires Inv(s) && Enabled(s, Lock(t))
    ensures Can(s, Lock(t))
  {
    hide InFlight, Total, AllPass, LastOf, BatchSize;
    Admission(s, t);
  }

  /** A result is logged exactly when the master leaves. */
  lemma LockLogs(s: State, t: nat)
    requires Can(s, Lock(t)) && !MasterOut(s) && |s.threads| > 0
    ensures var s' := Next(s, Lock(t)); if MasterOut(s') then |s'.log| == |s.log| + 1 else s'.log == s.log
    ensures Admitted(s, t).queue == [] && t == 0 && Admitted(s, t).nTodo == 0 ==> MasterOut(Next(s, Lock(t)))
  {
    hide LastOf, BatchSize;
  }

  /** While the master is in `Wait`, whatever step is taken, short of a spurious wake-up, brings its return nearer. */
  lemma StepAdvances(s: State, step: Step)
    requires Inv(s) && !MasterOut(s) && Enabled(s, step) && !step.Spurious?
    ensures Advances(s, step)
  {
    hide InFlight, Total, AllPass, LastOf, BatchSize, Measure, ThreadOk, Conserved;
    if step.Lock? {
      hide Advances;
      LockProgress(s, step.t);
    } else if step.Execute? {
      ExecuteProgress(s, step.t);
    } else if step.StartWorker? {
      StartProgress(s, step.t);
    }
  }

  lemma StartProgress(s: State, t: nat)
    requires Enabled(s, StartWorker(t))
    ensures Measure(Next(s, StartWorker(t))) < Measure(s)
  {
    hide Total;
    TotalUpdate(s.threads, t, Entering, Effort);
  }

  /** Some step is always possible, without a spurious wake-up. */
  lemma NextMove(s: State) returns (step: Step)
    requires Inv(s) && !MasterOut(s)
    ensures Enabled(s, step) && !step.Spurious?
  {
    hide InFlight, Total, AllPass;
    if |InFlight(s.threads)| > 0 {
      var t := SomeRunning(s.threads);
      assert ThreadOk(s, s.threads[t]);
      step := if s.threads[t].done < |s.threads[t].batch| then Execute(t) else Lock(t);
    } else {
      step := Lock(0);
      if s.threads[0].Running? {
        assert ThreadOk(s, s.threads[0]);
        NoneRunning(s.threads, 0);
      }
    }
  }

  /** The run has no spurious wake-up, and the master does not return before its end. */
  ghost predicate Waits(s: State, steps: seq<Step>)
    requires Follows(s, steps)
    decreases |steps|
  {
    steps == [] || (!steps[0].Spurious? && !MasterOut(s) && Waits(Next(s, steps[0]), steps[1..]))
  }

  /** Every run without spurious wake-ups lets the master return within the measure, whichever threads take the steps. */
  lemma {:induction false} WaitIsBounded(s: State, steps: seq<Step>)
    requires Inv(s) && Follows(s, steps) && Waits(s, steps)
    ensures |steps| <= Measure(s) + 1
    decreases |steps|
  {
    hide Inv, Next, Measure, Enabled;
    if steps != [] {
      StepKeeps(s, steps[0]);
      StepAdvances(s, steps[0]);
      var s' := Next(s, steps[0]);
      if !MasterOut(s') { WaitIsBounded(s', steps[1..]); }
    }
  }

  /** A run that cannot go on without a spurious wake-up has brought the master back. */
  lemma NoDeadlock(s: State)
    requires Inv(s) && forall step | Enabled(s, step) :: step.Spurious?
    ensures MasterOut(s)
  {
    hide Inv, Enabled;
    if !MasterOut(s) { var step := NextMove(s); }
  }

  /** So from every reachable state in which the master is in `Wait`, the threads can bring it to return once. */
  lemma {:induction false} WaitCanReturn(s: State) returns (steps: seq<Step>)
    requires Inv(s) && !MasterOut(s)
    ensures Follows(s, steps) && forall i | 0 <= i < |steps| :: !steps[i].Spurious?
    ensures MasterOut(After(s, steps)) && |After(s, steps).log| == |s.log| + 1
    decreases Measure(s)
  {
    hide Inv, Next, Measure, Enabled;
    var step := NextMove(s);
    StepKeeps(s, step);
    StepAdvances(s, step);
    var s' := Next(s, step);
    if MasterOut(s') {
      steps := [step];
      assert steps[1..] == [];
    } else {
      var rest := WaitCanReturn(s');
      steps := [step] + rest;
      assert steps[1..] == rest;
    }
  }
}
