/**
 The connection pool on the real events: each event is a lock of module FutexLock, clients and the drain take it
 and free it through the lock's own steps. What modules EventPool and FutexLock show of their parts holds of the
 whole, and what neither can say alone: who sleeps, sleeps for somebody.
 */
module LockedPool {
  import P = EventPool
  import L = FutexLock

  /** `drainer` is the thread that runs FcClose. */
  datatype System = System(pool: P.Pool, locks: seq<L.Lock>, drainer: nat)

  datatype Step = OfPool(act: P.Action) | OfLock(i: nat, a: L.Action)

  predicate Shaped(s: System) { P.Shaped(s.pool) && |s.locks| == P.CONNECTIONS && s.drainer !in s.pool.clients }

  /** The thread is in none of the lock functions. */
  predicate Idle(s: System, t: nat) {
    forall i :: 0 <= i < |s.locks| && t in s.locks[i].pcs ==> s.locks[i].pcs[t].Outside?
  }

  /** WaitForSingleObject is a timed acquire, WaitForMultipleObjects tries one event after the other. */
  predicate WaitsAt(s: System, t: nat, i: nat, op: L.Op) {
    if t == s.drainer then s.pool.closer == P.Draining(i) && op.Timed?
    else
      && t in s.pool.clients
      && ((s.pool.clients[t] == P.Scan(i) && op.Try?) || (s.pool.clients[t].Single? && i == 0 && op.Timed?))
  }

  /** When a thread enters a function of lock `i`. */
  predicate Calls(s: System, i: nat, a: L.Action)
    requires P.Shaped(s.pool) && i < P.CONNECTIONS
  {
    match a
    case Begin(t, op) => Idle(s, t) && WaitsAt(s, t, i, op)
    case Release(t) =>
      && Idle(s, t) && t in s.pool.clients && s.pool.clients[t].Giving?
      && s.pool.clients[t].i == i && s.pool.clients[t].h == s.pool.handles[i]
    case _ => true
  }

  /** The steps of the pool that involve no event. */
  predicate Apart(s: System, a: P.Action)
    requires P.Shaped(s.pool) && P.Enabled(s.pool, a)
  {
    match a
    case Reserve(t) => Idle(s, t)
    case Return(t) => Idle(s, t)
    case Compare(t) => Idle(s, t) && s.pool.handles[s.pool.clients[t].i] != s.pool.clients[t].h
    case _ => a.EndSingle? || a.Close? || a.CloseNext?
  }

  predicate Enabled(s: System, step: Step)
    requires Shaped(s)
  {
    match step
    case OfPool(a) => P.Enabled(s.pool, a) && Apart(s, a)
    case OfLock(i, a) => i < P.CONNECTIONS && L.Enabled(s.locks[i], a) && Calls(s, i, a)
  }

  /** The step of the pool a lock step amounts to, if any. */
  function Effect(s: System, i: nat, a: L.Action): seq<P.Action>
    requires Shaped(s) && i < P.CONNECTIONS && L.Enabled(s.locks[i], a)
  {
    var lock := s.locks[i];
    match a
    case Exchange(t) =>
      if t == s.drainer then if lock.xchg == 0 then [P.DrainTry] else []
      else if lock.xchg == 0 || lock.pcs[t].op.Try? then [P.TryTake(t)] else []
    case GiveUp(t) =>
      if t == s.drainer then [P.DrainInterrupted]
      else if t in s.pool.clients && s.pool.clients[t].Single? then [P.Interrupted(t)] else []
    case Release(t) => [P.Compare(t)]
    case _ => []
  }

  /** What the lock step does to the pool. The pool can always follow, as EffectIsEnabled shows. */
  function Moved(pool: P.Pool, acts: seq<P.Action>): (n: P.Pool)
    requires P.Shaped(pool)
    ensures P.Shaped(n) && n.clients.Keys == pool.clients.Keys
  {
    if |acts| == 1 && P.Enabled(pool, acts[0]) then P.Next(pool, acts[0]) else pool
  }

  function Effects(s: System, step: Step): seq<P.Action>
    requires Shaped(s) && Enabled(s, step)
  {
    match step
    case OfPool(a) => [a]
    case OfLock(i, a) => Effect(s, i, a)
  }

  function Next(s: System, step: Step): (n: System)
    requires Shaped(s) && Enabled(s, step)
    ensures Shaped(n)
  {
    var pool := Moved(s.pool, Effects(s, step));
    match step
    case OfPool(_) => s.(pool := pool)
    case OfLock(i, a) => s.(pool := pool, locks := s.locks[i := L.Next(s.locks[i], a)])
  }

  predicate Runs(s: System, run: seq<Step>)
    requires Shaped(s)
    decreases |run|
  {
    run == [] || (Enabled(s, run[0]) && Runs(Next(s, run[0]), run[1..]))
  }

  function After(s: System, run: seq<Step>): (n: System)
    requires Shaped(s) && Runs(s, run)
    ensures Shaped(n)
    decreases |run|
  {
    if run == [] then s else After(Next(s, run[0]), run[1..])
  }

  /** Every event created signalled, nobody in a lock function. */
  predicate Created(s: System) {
    Shaped(s) && P.Created(s.pool) && forall i :: 0 <= i < |s.locks| ==> L.Fresh(s.locks[i])
  }

  // ---------------------------------------------------------------- invariant

  /** A thread inside lock `i` is there because it waits for event `i`. */
  predicate Consistent(s: System, i: nat, t: nat)
    requires i < |s.locks|
  {
    t in s.locks[i].pcs ==>
      match s.locks[i].pcs[t]
      case Cas(op) => WaitsAt(s, t, i, op)
      case Call(op) => WaitsAt(s, t, i, op)
      case Asleep(op) => WaitsAt(s, t, i, op)
      case Undo =>
        if t == s.drainer then s.pool.closer == P.Draining(i)
        else t in s.pool.clients && (s.pool.clients[t].Scan? || (s.pool.clients[t].Single? && i == 0))
      case _ => true
  }

  /** A thread is inside one lock at most. */
  predicate OneLock(s: System, i: nat, j: nat, t: nat)
    requires i < |s.locks| && j < |s.locks|
  {
    i != j && t in s.locks[i].pcs && t in s.locks[j].pcs ==> s.locks[i].pcs[t].Outside? || s.locks[j].pcs[t].Outside?
  }

  ghost predicate Inv(s: System) {
    && Shaped(s)
    && (forall i :: 0 <= i < P.CONNECTIONS ==> s.locks[i].xchg == s.pool.words[i] <= 1)
    && (forall i, t :: 0 <= i < P.CONNECTIONS ==> Consistent(s, i, t))
    && (forall i, j, t :: 0 <= i < P.CONNECTIONS && 0 <= j < P.CONNECTIONS ==> OneLock(s, i, j, t))
  }

  lemma CreatedInv(s: System)
    requires Created(s)
    ensures Inv(s)
  {
  }

  lemma EffectIsEnabled(s: System, step: Step)
    requires Inv(s) && Enabled(s, step)
    ensures var acts := Effects(s, step); |acts| <= 1 && (|acts| == 1 ==> P.Enabled(s.pool, acts[0]))
  {
    if step.OfLock? { assert Consistent(s, step.i, step.a.t); }
  }

  /** The locks' words and the pool's stay the same. */
  lemma StepKeepsWords(s: System, step: Step, j: nat)
    requires Inv(s) && Enabled(s, step) && j < P.CONNECTIONS
    ensures Next(s, step).locks[j].xchg == Next(s, step).pool.words[j] <= 1
  {
    EffectIsEnabled(s, step);
    if step.OfLock? { assert Consistent(s, step.i, step.a.t); }
  }

  /** What a lock step of another thread leaves alone. */
  lemma OthersStay(s: System, i: nat, a: L.Action, u: nat)
    requires Inv(s) && Enabled(s, OfLock(i, a)) && u != a.t
    ensures var n := Next(s, OfLock(i, a));
            && n.drainer == s.drainer && n.pool.clients.Keys == s.pool.clients.Keys
            && (u in s.pool.clients ==> n.pool.clients[u] == s.pool.clients[u])
            && (u == s.drainer ==> n.pool.closer == s.pool.closer)
            && n.locks[i].pcs.Keys == s.locks[i].pcs.Keys
            && (u in s.locks[i].pcs ==>
                  if a.FutexWake? && a.u == u then
                    s.locks[i].pcs[u].Asleep? && n.locks[i].pcs[u] == L.Cas(s.locks[i].pcs[u].op)
                  else n.locks[i].pcs[u] == s.locks[i].pcs[u])
  {
    EffectIsEnabled(s, OfLock(i, a));
  }

  lemma OthersKeepConsistent(s: System, i: nat, a: L.Action, j: nat, u: nat)
    requires Inv(s) && Enabled(s, OfLock(i, a)) && u != a.t && j < P.CONNECTIONS
    ensures Consistent(Next(s, OfLock(i, a)), j, u)
  {
    OthersStay(s, i, a, u);
    assert Consistent(s, j, u);
    var n := Next(s, OfLock(i, a));
    assert j != i ==> n.locks[j] == s.locks[j];
    hide Next, Enabled, Effect;
  }

  /** A step of a thread in its own lock. */
  lemma OwnStepKeepsConsistent(s: System, i: nat, a: L.Action)
    requires Inv(s) && Enabled(s, OfLock(i, a))
    ensures Consistent(Next(s, OfLock(i, a)), i, a.t)
  {
    EffectIsEnabled(s, OfLock(i, a));
    assert Consistent(s, i, a.t);
  }

  lemma OtherLockIsLeft(s: System, i: nat, a: L.Action, j: nat)
    requires Inv(s) && Enabled(s, OfLock(i, a)) && j < P.CONNECTIONS && j != i
    ensures Consistent(Next(s, OfLock(i, a)), j, a.t)
  {
    assert Consistent(s, j, a.t) && OneLock(s, i, j, a.t);
    EffectIsEnabled(s, OfLock(i, a));
  }

  lemma PoolStepKeepsConsistent(s: System, act: P.Action, j: nat, u: nat)
    requires Inv(s) && Enabled(s, OfPool(act)) && j < P.CONNECTIONS
    ensures Consistent(Next(s, OfPool(act)), j, u)
  {
    assert Consistent(s, j, u);
  }

  lemma StepKeepsConsistent(s: System, step: Step, j: nat, u: nat)
    requires Inv(s) && Enabled(s, step) && j < P.CONNECTIONS
    ensures Consistent(Next(s, step), j, u)
  {
    hide Next, Enabled, Consistent, Inv;
    match step
    case OfPool(act) => PoolStepKeepsConsistent(s, act, j, u);
    case OfLock(i, a) =>
      if u != a.t { OthersKeepConsistent(s, i, a, j, u); }
      else if j == i { OwnStepKeepsConsistent(s, i, a); }
      else { OtherLockIsLeft(s, i, a, j); }
  }

  lemma StepKeepsOneLock(s: System, step: Step, i: nat, j: nat, u: nat)
    requires Inv(s) && Enabled(s, step) && i < P.CONNECTIONS && j < P.CONNECTIONS
    ensures OneLock(Next(s, step), i, j, u)
  {
    assert OneLock(s, i, j, u);
  }

  lemma StepKeepsInv(s: System, step: Step)
    requires Inv(s) && Enabled(s, step)
    ensures Inv(Next(s, step))
  {
    hide Next, Enabled, Consistent, OneLock;
    var n := Next(s, step);
    forall i | 0 <= i < P.CONNECTIONS ensures n.locks[i].xchg == n.pool.words[i] <= 1 { StepKeepsWords(s, step, i); }
    forall i, t | 0 <= i < P.CONNECTIONS ensures Consistent(n, i, t) { StepKeepsConsistent(s, step, i, t); }
    forall i, j, t | 0 <= i < P.CONNECTIONS && 0 <= j < P.CONNECTIONS ensures OneLock(n, i, j, t) {
      StepKeepsOneLock(s, step, i, j, t);
    }
  }

  // ---------------------------------------------------------------- refinement

  /** What a run of the whole is to the pool. */
  function PoolRun(s: System, run: seq<Step>): seq<P.Action>
    requires Shaped(s) && Runs(s, run)
    decreases |run|
  {
    if run == [] then [] else Effects(s, run[0]) + PoolRun(Next(s, run[0]), run[1..])
  }

  /** What it is to lock `i`. */
  function LockRun(run: seq<Step>, i: nat): seq<L.Action> {
    if run == [] then []
    else (if run[0].OfLock? && run[0].i == i then [run[0].a] else []) + LockRun(run[1..], i)
  }

  /**
   Every run of the whole is a run of the pool: the locks' other steps do not show, and a wait or SetEvent is one step.
   */
  lemma {:induction false} RefinesPool(s: System, run: seq<Step>)
    requires Inv(s) && Runs(s, run)
    ensures P.Runs(s.pool, PoolRun(s, run)) && P.After(s.pool, PoolRun(s, run)) == After(s, run).pool
    ensures Inv(After(s, run))
    decreases |run|
  {
    hide Enabled, P.Enabled, P.Next;
    if run != [] {
      var n := Next(s, run[0]);
      StepKeepsInv(s, run[0]);
      RefinesPool(n, run[1..]);
      EffectIsEnabled(s, run[0]);
      var acts, rest := Effects(s, run[0]), PoolRun(n, run[1..]);
      hide Inv, Effects, Next;
      NextIsMoved(s, run[0]);
      if |acts| == 0 {
        assert acts + rest == rest;
      } else {
        assert (acts + rest)[0] == acts[0] && (acts + rest)[1..] == rest;
      }
    }
  }

  lemma NextIsMoved(s: System, step: Step)
    requires Shaped(s) && Enabled(s, step)
    ensures Next(s, step).pool == Moved(s.pool, Effects(s, step)) && Next(s, step).drainer == s.drainer
  {
  }

  /** It is a run of each lock, too. */
  lemma {:induction false} RefinesLock(s: System, run: seq<Step>, i: nat)
    requires Shaped(s) && Runs(s, run) && i < P.CONNECTIONS
    ensures L.Runs(s.locks[i], LockRun(run, i)) && L.After(s.locks[i], LockRun(run, i)) == After(s, run).locks[i]
    decreases |run|
  {
    hide L.Enabled, L.Next;
    if run != [] {
      RefinesLock(Next(s, run[0]), run[1..], i);
      var rest := LockRun(run[1..], i);
      if run[0].OfLock? && run[0].i == i {
        assert ([run[0].a] + rest)[1..] == rest;
      } else {
        assert [] + rest == rest;
      }
    }
  }

  // ---------------------------------------------------------------- undisturbed waits

  /** No wait ends by a signal or by time. */
  predicate Calm(run: seq<Step>) {
    forall step :: step in run ==> step.OfLock? ==> !step.a.Interrupt? && !step.a.TimeOut?
  }

  /** Only tries are given up. */
  predicate OnlyTries(s: System, i: nat, t: nat)
    requires i < |s.locks|
  {
    t in s.locks[i].pcs && s.locks[i].pcs[t].Undo? ==> t != s.drainer && t in s.pool.clients && s.pool.clients[t].Scan?
  }

  ghost predicate CalmSoFar(s: System)
    requires Shaped(s)
  {
    forall i, t :: 0 <= i < P.CONNECTIONS ==> OnlyTries(s, i, t)
  }

  lemma CalmStep(s: System, step: Step, j: nat, u: nat)
    requires Inv(s) && CalmSoFar(s) && Enabled(s, step) && Calm([step]) && j < P.CONNECTIONS
    ensures OnlyTries(Next(s, step), j, u)
  {
    assert OnlyTries(s, j, u) && step in [step];
    match step
    case OfPool(_) =>
    case OfLock(i, a) =>
      assert Consistent(s, i, a.t) && OneLock(s, i, j, a.t);
      if u != a.t {
        OthersStay(s, i, a, u);
        assert j != i ==> Next(s, step).locks[j] == s.locks[j];
        hide Next, Enabled, Effect;
      } else {
        EffectIsEnabled(s, step);
      }
  }

  lemma CalmEffect(s: System, step: Step)
    requires Inv(s) && CalmSoFar(s) && Enabled(s, step)
    ensures P.Heeded(Effects(s, step))
  {
    if step.OfLock? { assert OnlyTries(s, step.i, step.a.t); }
  }

  /** In a calm run no wait of the pool is ignored. */
  lemma {:induction false} CalmIsHeeded(s: System, run: seq<Step>)
    requires Inv(s) && CalmSoFar(s) && Runs(s, run) && Calm(run)
    ensures P.Heeded(PoolRun(s, run))
    decreases |run|
  {
    hide Enabled, Effects, Next, Consistent, OneLock, P.Ignored, OnlyTries;
    if run != [] {
      var n := Next(s, run[0]);
      assert run[0] in run && forall step :: step in run[1..] ==> step in run;
      StepKeepsInv(s, run[0]);
      forall i, t | 0 <= i < P.CONNECTIONS ensures OnlyTries(n, i, t) { CalmStep(s, run[0], i, t); }
      CalmEffect(s, run[0]);
      CalmIsHeeded(n, run[1..]);
    }
  }

  // ---------------------------------------------------------------- the whole

  /**
   On real locks, too, no connection is reserved twice, and its lock is taken exactly while it is reserved or drained.
   */
  lemma ReservationsAreExclusive(s: System, run: seq<Step>, i: nat)
    requires Created(s) && Runs(s, run) && Calm(run) && i < P.CONNECTIONS
    ensures var n := After(s, run);
            && (forall t, u :: P.Reserves(n.pool, t, i) && P.Reserves(n.pool, u, i) ==> t == u)
            && (n.locks[i].xchg == 1 <==> P.DrainOwns(n.pool, i) || exists t :: P.Reserves(n.pool, t, i))
  {
    CreatedInv(s);
    RefinesPool(s, run);
    CalmIsHeeded(s, run);
    P.ReservationsAreExclusive(s.pool, PoolRun(s, run), i);
  }

  /** All threads have finished what they can: nobody is about to do anything inside a lock. */
  predicate AtRest(s: System) {
    forall i, t :: 0 <= i < |s.locks| && t in s.locks[i].pcs ==> s.locks[i].pcs[t].Outside? || s.locks[i].pcs[t].Asleep?
  }

  /** Who still sleeps then, client or drain, waits for an event whose connection a client holds. */
  lemma SleepersWaitForHolder(s: System, run: seq<Step>, i: nat, t: nat)
    requires Created(s) && Runs(s, run) && Calm(run) && AtRest(After(s, run)) && i < P.CONNECTIONS
    requires var n := After(s, run); t in n.locks[i].pcs && n.locks[i].pcs[t].Asleep?
    ensures exists u :: P.Reserves(After(s, run).pool, u, i)
  {
    CreatedInv(s);
    RefinesPool(s, run);
    RefinesLock(s, run, i);
    CalmIsHeeded(s, run);
    var n := After(s, run);
    L.NoStuckSleeper(s.locks[i], LockRun(run, i));
    assert L.Sleeper(n.locks[i]);
    P.CreatedInv(s.pool);
    P.RunKeepsInv(s.pool, PoolRun(s, run));
    assert Consistent(n, i, t) && P.Accounted(n.pool, i);
    assert !P.DrainOwns(n.pool, i);
  }

  /** There is such a sleeper: while client 1 holds connection 0, client 2 falls asleep waiting for it. */
  lemma SecondClientSleeps(s: System) returns (run: seq<Step>)
    requires Created(s) && s.pool.single && {1, 2} <= s.pool.clients.Keys && {1, 2} <= s.locks[0].pcs.Keys
    ensures Runs(s, run) && Calm(run) && AtRest(After(s, run))
    ensures var n := After(s, run); 2 in n.locks[0].pcs && n.locks[0].pcs[2].Asleep? && P.Reserves(n.pool, 1, 0)
  {
    assert 1 in s.locks[0].pcs && 2 in s.locks[0].pcs;
    hide Runs, After, Next, Enabled, AtRest;
    var r1, n1 := ClientTakes(s, 1);
    StillIdle(s, n1, 2);
    var r2, n2 := ClientSleeps(n1, 2);
    RunsOn(s, r1, r2);
    run := r1 + r2;
    OneSleepsAtRest(s, n2);
  }

  lemma StillIdle(s: System, n: System, t: nat)
    requires Created(s) && |n.locks| == |s.locks| && n.locks[1..] == s.locks[1..]
    requires t in s.locks[0].pcs && t in n.locks[0].pcs && n.locks[0].pcs[t] == s.locks[0].pcs[t]
    ensures Idle(n, t)
  {
    assert forall i :: 0 < i < |s.locks| ==> n.locks[i] == n.locks[1..][i - 1] == s.locks[1..][i - 1] == s.locks[i];
  }

  lemma ClientTakes(s: System, t: nat) returns (run: seq<Step>, n: System)
    requires Shaped(s) && s.pool.single && s.pool.closer.Open? && t in s.pool.clients && s.pool.clients[t].Out?
    requires t in s.locks[0].pcs && Idle(s, t) && s.locks[0].xchg == s.pool.words[0] == 0
    ensures Runs(s, run) && After(s, run) == n && Calm(run)
    ensures Changed(s, n, t, L.Outside, P.Has(s.pool.handles[0]), 1)
  {
    hide Runs, After, Next, Enabled, Idle;
    var r1, m := Enters(s, t);
    var r2;
    r2, n := Takes(m, t);
    RunsOn(s, r1, r2);
    run := r1 + r2;
  }

  lemma ClientSleeps(s: System, t: nat) returns (run: seq<Step>, n: System)
    requires Shaped(s) && s.pool.single && s.pool.closer.Open? && t in s.pool.clients && s.pool.clients[t].Out?
    requires t in s.locks[0].pcs && Idle(s, t) && s.locks[0].xchg == s.pool.words[0] == 1
    ensures Runs(s, run) && After(s, run) == n && Calm(run)
    ensures Changed(s, n, t, L.Asleep(L.Timed), P.Single, 1)
  {
    hide Runs, After, Next, Enabled, Idle;
    var r1, m := Enters(s, t);
    var r2;
    r2, n := FallsAsleep(m, t);
    RunsOn(s, r1, r2);
    run := r1 + r2;
  }

  lemma OneSleepsAtRest(s: System, n: System)
    requires Created(s) && |n.locks| == |s.locks| && n.locks[1..] == s.locks[1..]
    requires n.locks[0].pcs == s.locks[0].pcs[1 := L.Outside][2 := L.Asleep(L.Timed)]
    ensures AtRest(n)
  {
    assert forall i :: 0 < i < |s.locks| ==> n.locks[i] == n.locks[1..][i - 1] == s.locks[1..][i - 1] == s.locks[i];
  }

  /** What a client does to lock 0 only. */
  predicate Changed(s: System, n: System, t: nat, pc: L.Pc, client: P.Client, word: nat)
    requires Shaped(s) && Shaped(n)
  {
    && n.drainer == s.drainer && n.locks[1..] == s.locks[1..] && n.locks[0].pcs == s.locks[0].pcs[t := pc]
    && n.locks[0].xchg == word
    && n.pool == s.pool.(clients := s.pool.clients[t := client], words := s.pool.words[0 := word])
  }

  /** A client whose wait in the single-threaded phase has come to the exchange. */
  lemma Enters(s: System, t: nat) returns (run: seq<Step>, n: System)
    requires Shaped(s) && s.pool.single && s.pool.closer.Open? && t in s.pool.clients && s.pool.clients[t].Out?
    requires t in s.locks[0].pcs && Idle(s, t) && s.locks[0].xchg == s.pool.words[0]
    ensures Runs(s, run) && After(s, run) == n && Calm(run)
    ensures Changed(s, n, t, L.Cas(L.Timed), P.Single, s.pool.words[0])
  {
    hide Runs, After;
    var reserve, begin := OfPool(P.Reserve(t)), OfLock(0, L.Begin(t, L.Timed));
    var m := Next(s, reserve);
    assert Idle(m, t) && WaitsAt(m, t, 0, L.Timed);
    n := Next(m, begin);
    run := TwoSteps(s, reserve, begin);
  }

  lemma Takes(s: System, t: nat) returns (run: seq<Step>, n: System)
    requires Shaped(s) && t in s.pool.clients && s.pool.clients[t].Single?
    requires t in s.locks[0].pcs && s.locks[0].pcs[t] == L.Cas(L.Timed) && s.locks[0].xchg == s.pool.words[0] == 0
    ensures Runs(s, run) && After(s, run) == n && Calm(run)
    ensures Changed(s, n, t, L.Outside, P.Has(s.pool.handles[0]), 1)
  {
    hide Runs, After;
    var take := OfLock(0, L.Exchange(t));
    n := Next(s, take);
    NoRun(n);
    RunOn(s, take, []);
    run := [take] + [];
  }

  lemma FallsAsleep(s: System, t: nat) returns (run: seq<Step>, n: System)
    requires Shaped(s) && t in s.pool.clients && s.pool.clients[t].Single?
    requires t in s.locks[0].pcs && s.locks[0].pcs[t] == L.Cas(L.Timed) && s.locks[0].xchg == s.pool.words[0] == 1
    ensures Runs(s, run) && After(s, run) == n && Calm(run)
    ensures Changed(s, n, t, L.Asleep(L.Timed), P.Single, 1)
  {
    hide Runs, After;
    var miss, sleep := OfLock(0, L.Exchange(t)), OfLock(0, L.FutexWait(t));
    var m := Next(s, miss);
    n := Next(m, sleep);
    run := TwoSteps(s, miss, sleep);
  }

  lemma TwoSteps(s: System, a: Step, b: Step) returns (run: seq<Step>)
    requires Shaped(s) && Enabled(s, a) && Enabled(Next(s, a), b)
    ensures run == [a, b] && Runs(s, run) && After(s, run) == Next(Next(s, a), b)
  {
    hide Enabled, Next, Runs, After;
    NoRun(Next(Next(s, a), b));
    RunOn(Next(s, a), b, []);
    assert [b] + [] == [b];
    RunOn(s, a, [b]);
    run := [a] + [b];
  }

  lemma NoRun(s: System)
    requires Shaped(s)
    ensures Runs(s, []) && After(s, []) == s
  {
  }

  lemma RunOn(s: System, step: Step, run: seq<Step>)
    requires Shaped(s) && Enabled(s, step) && Runs(Next(s, step), run)
    ensures Runs(s, [step] + run) && After(s, [step] + run) == After(Next(s, step), run)
  {
    hide Enabled, Next;
    assert ([step] + run)[1..] == run;
  }

  lemma {:induction false} RunsOn(s: System, run: seq<Step>, more: seq<Step>)
    requires Shaped(s) && Runs(s, run) && Runs(After(s, run), more)
    ensures Runs(s, run + more) && After(s, run + more) == After(After(s, run), more)
    decreases |run|
  {
    hide Enabled, Next;
    if run == [] {
      assert run + more == more;
    } else {
      assert (run + more)[0] == run[0] && (run + more)[1..] == run[1..] + more;
      RunsOn(Next(s, run[0]), run[1..], more);
    }
  }

  /** An event that is free while somebody sleeps on it is taken within three steps of threads under way. */
  lemma FreeEventGetsTaken(s: System, run: seq<Step>, i: nat) returns (more: seq<Step>)
    requires Created(s) && Runs(s, run) && i < P.CONNECTIONS
    requires var n := After(s, run); n.pool.words[i] == 0 && L.Sleeper(n.locks[i])
    ensures |more| <= 3 && Runs(After(s, run), more) && After(After(s, run), more).pool.words[i] == 1
  {
    CreatedInv(s);
    RefinesPool(s, run);
    RefinesLock(s, run, i);
    var acts := L.LockGetsTaken(s.locks[i], LockRun(run, i));
    more := Lifted(After(s, run), i, acts);
  }

  lemma {:induction false} Lifted(n: System, i: nat, acts: seq<L.Action>) returns (more: seq<Step>)
    requires Inv(n) && i < P.CONNECTIONS && L.Runs(n.locks[i], acts) && forall a :: a in acts ==> L.Internal(a)
    ensures |more| == |acts| && Runs(n, more) && Inv(After(n, more))
    ensures After(n, more).locks[i] == L.After(n.locks[i], acts)
    decreases |acts|
  {
    hide L.Enabled, L.Next;
    more := [];
    if acts != [] {
      var step := OfLock(i, acts[0]);
      assert acts[0] in acts && forall a :: a in acts[1..] ==> a in acts;
      StepKeepsInv(n, step);
      var rest := Lifted(Next(n, step), i, acts[1..]);
      more := [step] + rest;
      assert more[1..] == rest;
    }
  }

  // ---------------------------------------------------------------- scans over real locks

  /** A thread that is still waking others has given its connection back. */
  predicate ReleasersAreOut(s: System, i: nat, t: nat)
    requires i < |s.locks|
  {
    t in s.locks[i].pcs && (s.locks[i].pcs[t].Drop? || s.locks[i].pcs[t].Wake?) ==>
      t in s.pool.clients && s.pool.clients[t].Out?
  }

  ghost predicate ScansAreClean(s: System)
    requires Shaped(s)
  {
    forall i, t :: 0 <= i < P.CONNECTIONS ==> ReleasersAreOut(s, i, t)
  }

  lemma StepKeepsReleasers(s: System, step: Step, j: nat, u: nat)
    requires Inv(s) && ScansAreClean(s) && Enabled(s, step) && j < P.CONNECTIONS
    ensures ReleasersAreOut(Next(s, step), j, u)
  {
    assert ReleasersAreOut(s, j, u);
    match step
    case OfPool(_) =>
    case OfLock(i, a) =>
      assert Consistent(s, i, a.t) && OneLock(s, i, j, a.t) && ReleasersAreOut(s, i, a.t);
      if u != a.t {
        OthersStay(s, i, a, u);
        assert j != i ==> Next(s, step).locks[j] == s.locks[j];
        hide Next, Enabled, Effect;
      } else {
        EffectIsEnabled(s, step);
      }
  }

  lemma {:induction false} RunKeepsReleasers(s: System, run: seq<Step>)
    requires Inv(s) && ScansAreClean(s) && Runs(s, run)
    ensures ScansAreClean(After(s, run)) && Inv(After(s, run))
    decreases |run|
  {
    hide Enabled, Next, Consistent, OneLock, ReleasersAreOut;
    if run != [] {
      var n := Next(s, run[0]);
      StepKeepsInv(s, run[0]);
      forall i, t | 0 <= i < P.CONNECTIONS ensures ReleasersAreOut(n, i, t) { StepKeepsReleasers(s, run[0], i, t); }
      RunKeepsReleasers(n, run[1..]);
    }
  }

  /** The thread takes part in every lock. */
  predicate Everywhere(s: System, t: nat) { forall i :: 0 <= i < |s.locks| ==> t in s.locks[i].pcs }

  predicate OnlyBy(run: seq<Step>, t: nat) { forall step :: step in run ==> step.OfLock? && step.a.t == t }

  /** A try of event `i` by a thread that is in no lock. */
  lemma TryOnce(s: System, t: nat, i: nat) returns (run: seq<Step>, n: System)
    requires Inv(s) && Idle(s, t) && Everywhere(s, t) && i < P.CONNECTIONS && t != s.drainer
    requires t in s.pool.clients && s.pool.clients[t] == P.Scan(i)
    ensures Runs(s, run) && After(s, run) == n && OnlyBy(run, t) && Inv(n) && Everywhere(n, t)
    ensures if s.pool.words[i] == 0 then
              && |run| == 2
              && n.pool == s.pool.(words := s.pool.words[i := 1],
                                   clients := s.pool.clients[t := P.Has(s.pool.handles[i])])
            else
              && |run| == 3 && Idle(n, t) && n.drainer == s.drainer
              && n.pool == s.pool.(clients := s.pool.clients[t := P.Scan(if i + 1 == P.CONNECTIONS then 0 else i + 1)])
  {
    hide Runs, After, Consistent, OneLock, Next, Enabled, Calls, L.Next;
    var begin, exchange, giveUp := OfLock(i, L.Begin(t, L.Try)), OfLock(i, L.Exchange(t)), OfLock(i, L.GiveUp(t));
    BeginOfTry(s, t, i);
    P.ScanStep(s.pool, t, i);
    hide P.Next;
    var m := Next(s, begin);
    StepKeepsInv(s, begin);
    ExchangeOfTry(m, t, i);
    StepKeepsInv(m, exchange);
    var k := Next(m, exchange);
    if s.pool.words[i] == 0 {
      n := k;
      run := TwoSteps(s, begin, exchange);
    } else {
      GiveUpOfTry(k, t, i);
      StepKeepsInv(k, giveUp);
      n := Next(k, giveUp);
      run := ThreeSteps(s, begin, exchange, giveUp);
    }
  }

  lemma BeginOfTry(s: System, t: nat, i: nat)
    requires Inv(s) && Idle(s, t) && i < P.CONNECTIONS && t != s.drainer && t in s.locks[i].pcs
    requires t in s.pool.clients && s.pool.clients[t] == P.Scan(i)
    ensures var step := OfLock(i, L.Begin(t, L.Try));
            && Enabled(s, step) && Next(s, step).drainer == s.drainer && Next(s, step).pool == s.pool
            && Next(s, step).locks == s.locks[i := L.Next(s.locks[i], L.Begin(t, L.Try))]
            && Next(s, step).locks[i].pcs == s.locks[i].pcs[t := L.Cas(L.Try)]
  {
    hide Consistent, OneLock;
  }

  lemma ExchangeOfTry(m: System, t: nat, i: nat)
    requires Inv(m) && i < P.CONNECTIONS && t != m.drainer && t in m.pool.clients && m.pool.clients[t] == P.Scan(i)
    requires t in m.locks[i].pcs && m.locks[i].pcs[t] == L.Cas(L.Try)
    ensures var step := OfLock(i, L.Exchange(t));
            && Enabled(m, step) && Next(m, step).drainer == m.drainer
            && Next(m, step).locks == m.locks[i := L.Next(m.locks[i], L.Exchange(t))]
            && Next(m, step).pool == P.Next(m.pool, P.TryTake(t))
            && Next(m, step).locks[i].pcs == m.locks[i].pcs[t := if m.pool.words[i] == 0 then L.Outside else L.Undo]
  {
    hide Consistent, OneLock;
  }

  lemma GiveUpOfTry(k: System, t: nat, i: nat)
    requires Inv(k) && i < P.CONNECTIONS && t != k.drainer && t in k.pool.clients && k.pool.clients[t].Scan?
    requires t in k.locks[i].pcs && k.locks[i].pcs[t].Undo?
    ensures var step := OfLock(i, L.GiveUp(t));
            && Enabled(k, step) && Next(k, step).drainer == k.drainer && Next(k, step).pool == k.pool
            && Next(k, step).locks == k.locks[i := L.Next(k.locks[i], L.GiveUp(t))]
            && Next(k, step).locks[i].pcs == k.locks[i].pcs[t := L.Outside]
  {
    hide Consistent, OneLock;
  }

  lemma ThreeSteps(s: System, a: Step, b: Step, c: Step) returns (run: seq<Step>)
    requires Shaped(s) && Enabled(s, a) && Enabled(Next(s, a), b) && Enabled(Next(Next(s, a), b), c)
    ensures run == [a, b, c] && Runs(s, run) && After(s, run) == Next(Next(Next(s, a), b), c)
  {
    hide Enabled, Next, Runs, After;
    var rest := TwoSteps(Next(s, a), b, c);
    RunOn(s, a, rest);
    run := [a] + rest;
  }

  /** The scan of an idle thread: two steps for the event it takes and three for each one it finds taken before. */
  lemma {:induction false} ScanTakes(s: System, t: nat, i: nat, d: nat) returns (run: seq<Step>)
    requires Inv(s) && Idle(s, t) && Everywhere(s, t) && i < P.CONNECTIONS && t != s.drainer
    requires t in s.pool.clients && s.pool.clients[t] == P.Scan(i) && P.FirstFree(s.pool.words, i, d)
    ensures Runs(s, run) && OnlyBy(run, t) && |run| == 3 * d + 2
    ensures var j, pool := P.Around(i, d), After(s, run).pool;
            pool == s.pool.(words := s.pool.words[j := 1], clients := s.pool.clients[t := P.Has(s.pool.handles[j])])
    decreases d
  {
    hide Runs, After, Next, Enabled, Inv, Idle, Everywhere, P.FirstFree, P.Around;
    InvIsShaped(s);
    var first, n := TryOnce(s, t, i);
    var j := P.Around(i, d);
    if d > 0 {
      var next := if i + 1 == P.CONNECTIONS then 0 else i + 1;
      P.NextAround(s.pool.words, i, d, next);
      var rest := ScanTakes(n, t, next, d - 1);
      RunsOn(s, first, rest);
      run := first + rest;
      assert s.pool.clients[t := P.Scan(next)][t := P.Has(s.pool.handles[j])] ==
             s.pool.clients[t := P.Has(s.pool.handles[j])];
    } else {
      P.NowFree(s.pool.words, i);
      run := first;
    }
  }

  lemma InvIsShaped(s: System)
    requires Inv(s)
    ensures Shaped(s)
  {
  }

  /** Where a thread that scans can be: in no lock, giving a try up, or about to exchange the word of its event. */
  lemma WhereScansAre(n: System, t: nat, i: nat) returns (k: nat)
    requires Inv(n) && ScansAreClean(n) && Everywhere(n, t) && t in n.pool.clients && n.pool.clients[t] == P.Scan(i)
    requires forall j :: 0 <= j < P.CONNECTIONS ==>
               n.locks[j].pcs[t] != L.Call(L.Try) && n.locks[j].pcs[t] != L.Asleep(L.Try)
    ensures k < P.CONNECTIONS && forall j :: 0 <= j < P.CONNECTIONS && j != k ==> n.locks[j].pcs[t].Outside?
    ensures Idle(n, t) || n.locks[k].pcs[t].Undo? || (k == i && n.locks[k].pcs[t] == L.Cas(L.Try))
  {
    k := 0;
    if j :| 0 <= j < P.CONNECTIONS && !n.locks[j].pcs[t].Outside? { k := j; }
    forall j | 0 <= j < P.CONNECTIONS && j != k ensures n.locks[j].pcs[t].Outside? { assert OneLock(n, j, k, t); }
    assert Consistent(n, k, t) && ReleasersAreOut(n, k, t);
  }

  lemma IdleNow(n: System, m: System, t: nat, k: nat)
    requires |m.locks| == |n.locks| && k < |n.locks|
             && (forall j :: 0 <= j < |n.locks| && j != k ==> m.locks[j] == n.locks[j])
    requires Everywhere(n, t) && m.locks[k].pcs == n.locks[k].pcs[t := L.Outside]
    requires forall j :: 0 <= j < |n.locks| && j != k ==> t in n.locks[j].pcs && n.locks[j].pcs[t].Outside?
    ensures Idle(m, t) && Everywhere(m, t)
  {
  }

  lemma ScanGivesUpFirst(n: System, t: nat, i: nat, d: nat, k: nat) returns (more: seq<Step>)
    requires Inv(n) && Everywhere(n, t) && i < P.CONNECTIONS && k < P.CONNECTIONS && t != n.drainer
    requires t in n.pool.clients && n.pool.clients[t] == P.Scan(i) && P.FirstFree(n.pool.words, i, d)
    requires forall j :: 0 <= j < P.CONNECTIONS && j != k ==> n.locks[j].pcs[t].Outside?
    requires n.locks[k].pcs[t].Undo?
    ensures Runs(n, more) && OnlyBy(more, t) && |more| == 3 * d + 3
    ensures var j, pool := P.Around(i, d), After(n, more).pool;
            pool == n.pool.(words := n.pool.words[j := 1], clients := n.pool.clients[t := P.Has(n.pool.handles[j])])
  {
    var giveUp := OfLock(k, L.GiveUp(t));
    GiveUpOfTry(n, t, k);
    StepKeepsInv(n, giveUp);
    var m := Next(n, giveUp);
    IdleNow(n, m, t, k);
    hide Runs, After, Next, Enabled, Inv, Idle, Everywhere, P.FirstFree, P.Around;
    var rest := ScanTakes(m, t, i, d);
    RunOn(n, giveUp, rest);
    more := [giveUp] + rest;
  }

  lemma ExchangedOnly(n: System, m: System, t: nat, i: nat, pc: L.Pc)
    requires |n.locks| == |m.locks| && i < |n.locks| && Everywhere(n, t) && m.locks == n.locks[i := m.locks[i]]
    requires m.locks[i].pcs == n.locks[i].pcs[t := pc]
    ensures Everywhere(m, t) && m.locks[i].pcs[t] == pc
    ensures forall j :: 0 <= j < |n.locks| && j != i ==> m.locks[j] == n.locks[j]
  {
  }

  lemma AfterExchange(n: System, t: nat, i: nat) returns (m: System)
    requires Inv(n) && Everywhere(n, t) && i < P.CONNECTIONS && t != n.drainer
    requires t in n.pool.clients && n.pool.clients[t] == P.Scan(i) && n.locks[i].pcs[t] == L.Cas(L.Try)
    requires forall j :: 0 <= j < P.CONNECTIONS && j != i ==> n.locks[j].pcs[t].Outside?
    ensures Enabled(n, OfLock(i, L.Exchange(t))) && m == Next(n, OfLock(i, L.Exchange(t))) && Inv(m)
    ensures Everywhere(m, t) && |m.locks| == P.CONNECTIONS && m.drainer == n.drainer
    ensures forall j :: 0 <= j < P.CONNECTIONS && j != i ==> m.locks[j].pcs[t].Outside?
    ensures n.pool.words[i] != 0 ==> m.locks[i].pcs[t].Undo?
    ensures m.pool == if n.pool.words[i] == 0 then
                        n.pool.(words := n.pool.words[i := 1],
                                clients := n.pool.clients[t := P.Has(n.pool.handles[i])])
                      else
                        n.pool.(clients := n.pool.clients[t := P.Scan(if i + 1 == P.CONNECTIONS then 0 else i + 1)])
  {
    hide L.Next;
    var exchange := OfLock(i, L.Exchange(t));
    ExchangeOfTry(n, t, i);
    StepKeepsInv(n, exchange);
    P.ScanStep(n.pool, t, i);
    hide Inv, Consistent, OneLock, Next, Enabled, P.Next;
    m := Next(n, exchange);
    ExchangedOnly(n, m, t, i, if n.pool.words[i] == 0 then L.Outside else L.Undo);
  }

  lemma ScanExchangesFirst(n: System, t: nat, i: nat, d: nat) returns (more: seq<Step>)
    requires Inv(n) && Everywhere(n, t) && i < P.CONNECTIONS && t != n.drainer
    requires t in n.pool.clients && n.pool.clients[t] == P.Scan(i) && P.FirstFree(n.pool.words, i, d)
    requires forall j :: 0 <= j < P.CONNECTIONS && j != i ==> n.locks[j].pcs[t].Outside?
    requires n.locks[i].pcs[t] == L.Cas(L.Try)
    ensures Runs(n, more) && OnlyBy(more, t) && |more| == 3 * d + 1
    ensures var j, pool := P.Around(i, d), After(n, more).pool;
            pool == n.pool.(words := n.pool.words[j := 1], clients := n.pool.clients[t := P.Has(n.pool.handles[j])])
  {
    hide Runs, After, Next, Enabled, Inv, Idle, Everywhere, P.FirstFree, P.Around;
    InvIsShaped(n);
    var exchange := OfLock(i, L.Exchange(t));
    var m := AfterExchange(n, t, i);
    if d > 0 {
      var next, j := if i + 1 == P.CONNECTIONS then 0 else i + 1, P.Around(i, d);
      P.NextAround(n.pool.words, i, d, next);
      var rest := ScanGivesUpFirst(m, t, next, d - 1, i);
      RunOn(n, exchange, rest);
      more := [exchange] + rest;
      assert n.pool.clients[t := P.Scan(next)][t := P.Has(n.pool.handles[j])] ==
             n.pool.clients[t := P.Has(n.pool.handles[j])];
    } else {
      P.NowFree(n.pool.words, i);
      NoRun(m);
      RunOn(n, exchange, []);
      more := [exchange] + [];
    }
  }

  /**
   From every reachable state with a signalled event, a client that scans gets the first one from its place on by at
   most twelve steps of its own: no other thread has to move, and nothing but that event and this client changes.
   */
  lemma ScanEnds(s: System, run: seq<Step>, t: nat) returns (more: seq<Step>, i: nat, d: nat)
    requires Created(s) && Runs(s, run) && Everywhere(s, t) && 0 in After(s, run).pool.words
    requires t in After(s, run).pool.clients && After(s, run).pool.clients[t].Scan?
    ensures var n := After(s, run);
            && n.pool.clients[t] == P.Scan(i) && i < P.CONNECTIONS && P.FirstFree(n.pool.words, i, d)
            && |more| <= 3 * d + 3 <= 12 && OnlyBy(more, t) && Runs(n, more)
            && After(n, more).pool == n.pool.(words := n.pool.words[P.Around(i, d) := 1],
                                              clients := n.pool.clients[t := P.Has(n.pool.handles[P.Around(i, d)])])
  {
    var n := After(s, run);
    CreatedInv(s);
    RunKeepsReleasers(s, run);
    i := n.pool.clients[t].i;
    d := P.SomeIsFirst(n.pool.words, i);
    forall j | 0 <= j < P.CONNECTIONS
      ensures t in n.locks[j].pcs && n.locks[j].pcs[t] != L.Call(L.Try) && n.locks[j].pcs[t] != L.Asleep(L.Try)
    {
      RefinesLock(s, run, j);
      L.RunKeepsThreads(s.locks[j], LockRun(run, j));
      L.TryNeverWaits(s.locks[j], LockRun(run, j), t);
    }
    var k := WhereScansAre(n, t, i);
    if Idle(n, t) {
      more := ScanTakes(n, t, i, d);
    } else if n.locks[k].pcs[t].Undo? {
      more := ScanGivesUpFirst(n, t, i, d, k);
    } else {
      more := ScanExchangesFirst(n, t, i, d);
    }
  }
}
