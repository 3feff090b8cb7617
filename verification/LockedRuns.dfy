/**
 The converse of the refinement in module LockedPool: whatever the pool can do on four words, it can do on four
 locks. Each step of the pool is a whole call of a lock function, from its begin to its end.
 */
module LockedRuns {
  import opened LockedPool

  /** Every client and the drain may use every lock. */
  predicate Staffed(s: System) {
    forall i :: 0 <= i < |s.locks| ==> s.pool.clients.Keys + {s.drainer} <= s.locks[i].pcs.Keys
  }

  /** Nobody is inside a lock function, except `t`, which is at `pc` in lock `i`. */
  ghost predicate Alone(s: System, t: nat, i: nat, pc: L.Pc) {
    && Inv(s) && Staffed(s) && i < P.CONNECTIONS && t in s.locks[i].pcs && s.locks[i].pcs[t] == pc
    && forall j, u :: 0 <= j < P.CONNECTIONS && u in s.locks[j].pcs && (j != i || u != t) ==> s.locks[j].pcs[u].Outside?
  }

  /** Nobody is inside a lock function. */
  ghost predicate Rested(s: System) {
    Inv(s) && Staffed(s) && forall j, u :: 0 <= j < P.CONNECTIONS && u in s.locks[j].pcs ==> s.locks[j].pcs[u].Outside?
  }

  lemma RestedIsAlone(s: System, t: nat, i: nat)
    requires Rested(s) && i < P.CONNECTIONS && (t in s.pool.clients || t == s.drainer)
    ensures Alone(s, t, i, L.Outside) && Idle(s, t)
  {
    assert Shaped(s);
    hide Inv;
    assert t in s.pool.clients.Keys + {s.drainer};
  }

  lemma AloneIsRested(s: System, t: nat, i: nat)
    requires Alone(s, t, i, L.Outside)
    ensures Rested(s)
  {
    hide Inv;
  }

  /** A step of the one thread inside. */
  lemma OwnStep(s: System, t: nat, i: nat, pc: L.Pc, a: L.Action)
    requires Alone(s, t, i, pc) && a.t == t && !a.FutexWake? && L.Enabled(s.locks[i], a) && Calls(s, i, a)
    ensures var step, n := OfLock(i, a), Next(s, OfLock(i, a));
            && Enabled(s, step) && Alone(n, t, i, n.locks[i].pcs[t]) && n.drainer == s.drainer
            && n.locks[i] == L.Next(s.locks[i], a) && n.pool == Moved(s.pool, Effect(s, i, a))
  {
    var step := OfLock(i, a);
    StepKeepsInv(s, step);
    var n := Next(s, step);
    hide Inv, Effect, Moved, Calls;
    assert n.locks == s.locks[i := L.Next(s.locks[i], a)];
    assert n.pool.clients.Keys == s.pool.clients.Keys && n.drainer == s.drainer;
    assert forall u :: u in s.locks[i].pcs ==>
             u in n.locks[i].pcs && (u != t ==> n.locks[i].pcs[u] == s.locks[i].pcs[u]);
  }

  // ---------------------------------------------------------------- whole calls

  /** The step of the pool that a wait of the thread comes to when it succeeds, and when it fails. */
  function Success(s: System, t: nat): P.Action { if t == s.drainer then P.DrainTry else P.TryTake(t) }
  function Failure(s: System, t: nat): P.Action {
    if t == s.drainer then P.DrainInterrupted
    else if t in s.pool.clients && s.pool.clients[t].Single? then P.Interrupted(t)
    else P.TryTake(t)
  }

  /** A wait up to its exchange. */
  lemma WaitBegins(s: System, t: nat, i: nat, op: L.Op) returns (n: System)
    requires Rested(s) && i < P.CONNECTIONS && WaitsAt(s, t, i, op)
    ensures Enabled(s, OfLock(i, L.Begin(t, op))) && n == Next(s, OfLock(i, L.Begin(t, op)))
    ensures Alone(n, t, i, L.Cas(op)) && n.pool == s.pool && n.drainer == s.drainer
  {
    RestedIsAlone(s, t, i);
    OwnStep(s, t, i, L.Outside, L.Begin(t, op));
    n := Next(s, OfLock(i, L.Begin(t, op)));
    hide Inv, Next, Enabled, Rested;
  }

  /** A wait for an event that is signalled takes it. */
  lemma WaitTakes(s: System, t: nat, i: nat, op: L.Op) returns (run: seq<Step>)
    requires Rested(s) && i < P.CONNECTIONS && WaitsAt(s, t, i, op) && s.pool.words[i] == 0
    ensures P.Enabled(s.pool, Success(s, t))
    ensures Runs(s, run) && Rested(After(s, run)) && After(s, run).pool == P.Next(s.pool, Success(s, t))
    ensures After(s, run).drainer == s.drainer
  {
    var m := WaitBegins(s, t, i, op);
    var a := L.Exchange(t);
    assert m.locks[i].xchg == 0;
    OwnStep(m, t, i, L.Cas(op), a);
    var n := Next(m, OfLock(i, a));
    assert n.locks[i].pcs[t].Outside? && Effect(m, i, a) == [Success(s, t)];
    AloneIsRested(n, t, i);
    hide Runs, After, Next, Enabled, Rested, Alone;
    run := TwoSteps(s, OfLock(i, L.Begin(t, op)), OfLock(i, a));
  }

  /** A wait for a taken event up to the failed exchange. */
  lemma WaitMisses(s: System, t: nat, i: nat, op: L.Op) returns (run: seq<Step>, n: System)
    requires Rested(s) && i < P.CONNECTIONS && WaitsAt(s, t, i, op) && s.pool.words[i] != 0
    ensures Runs(s, run) && After(s, run) == n && n.drainer == s.drainer && n.locks[i].xchg == 1
    ensures if op.Try? then
              Alone(n, t, i, L.Undo) && P.Enabled(s.pool, Success(s, t)) && n.pool == P.Next(s.pool, Success(s, t))
            else
              Alone(n, t, i, L.Call(op)) && n.pool == s.pool
  {
    var m := WaitBegins(s, t, i, op);
    var a := L.Exchange(t);
    assert m.locks[i].xchg == 1;
    OwnStep(m, t, i, L.Cas(op), a);
    n := Next(m, OfLock(i, a));
    assert Effect(m, i, a) == if op.Try? then [Success(s, t)] else [];
    hide Runs, After, Next, Enabled, Rested, Alone;
    run := TwoSteps(s, OfLock(i, L.Begin(t, op)), OfLock(i, a));
  }

  /** The try of a scan that finds the event taken gives up and leaves the lock. */
  lemma TryFails(s: System, t: nat, i: nat) returns (run: seq<Step>)
    requires Rested(s) && i < P.CONNECTIONS && WaitsAt(s, t, i, L.Try) && s.pool.words[i] != 0
    ensures P.Enabled(s.pool, P.TryTake(t))
    ensures Runs(s, run) && Rested(After(s, run)) && After(s, run).pool == P.Next(s.pool, P.TryTake(t))
    ensures After(s, run).drainer == s.drainer
  {
    var first, m := WaitMisses(s, t, i, L.Try);
    assert t != s.drainer && m.pool.clients[t].Scan?;
    var a := L.GiveUp(t);
    OwnStep(m, t, i, L.Undo, a);
    var n := Next(m, OfLock(i, a));
    assert Effect(m, i, a) == [] && n.locks[i].pcs[t].Outside?;
    AloneIsRested(n, t, i);
    hide Runs, After, Next, Enabled, Rested, Alone;
    run := OneMore(s, first, OfLock(i, a));
  }

  lemma OneMore(s: System, run: seq<Step>, step: Step) returns (more: seq<Step>)
    requires Shaped(s) && Runs(s, run) && Enabled(After(s, run), step)
    ensures Runs(s, more) && After(s, more) == Next(After(s, run), step)
  {
    hide Enabled, Next, Runs, After;
    var m := After(s, run);
    NoRun(Next(m, step));
    RunOn(m, step, []);
    RunsOn(s, run, [step] + []);
    more := run + ([step] + []);
  }

  /** A timed wait falls asleep, and a signal rouses it. */
  lemma Sleeps(m: System, t: nat, i: nat) returns (m1: System, m2: System)
    requires Alone(m, t, i, L.Call(L.Timed)) && m.locks[i].xchg == 1
    ensures Enabled(m, OfLock(i, L.FutexWait(t))) && m1 == Next(m, OfLock(i, L.FutexWait(t)))
    ensures Enabled(m1, OfLock(i, L.Interrupt(t))) && m2 == Next(m1, OfLock(i, L.Interrupt(t)))
    ensures Alone(m2, t, i, L.Undo) && m2.pool == m.pool && m2.drainer == m.drainer
  {
    OwnStep(m, t, i, L.Call(L.Timed), L.FutexWait(t));
    m1 := Next(m, OfLock(i, L.FutexWait(t)));
    assert m1.locks[i].pcs[t] == L.Asleep(L.Timed);
    OwnStep(m1, t, i, L.Asleep(L.Timed), L.Interrupt(t));
    m2 := Next(m1, OfLock(i, L.Interrupt(t)));
  }

  /** Roused by a signal, it leaves the lock, and the pool takes that for the end of the wait. */
  lemma LeavesWait(m: System, t: nat, i: nat) returns (n: System)
    requires Alone(m, t, i, L.Undo) && WaitsAt(m, t, i, L.Timed)
    ensures Enabled(m, OfLock(i, L.GiveUp(t))) && n == Next(m, OfLock(i, L.GiveUp(t)))
    ensures Rested(n) && n.drainer == m.drainer
    ensures P.Enabled(m.pool, Failure(m, t)) && n.pool == P.Next(m.pool, Failure(m, t))
  {
    OwnStep(m, t, i, L.Undo, L.GiveUp(t));
    n := Next(m, OfLock(i, L.GiveUp(t)));
    assert Effect(m, i, L.GiveUp(t)) == [Failure(m, t)] && n.locks[i].pcs[t].Outside?;
    AloneIsRested(n, t, i);
  }

  /** A timed wait for a taken event, ended by a signal. */
  lemma WaitIsInterrupted(s: System, t: nat, i: nat) returns (run: seq<Step>)
    requires Rested(s) && i < P.CONNECTIONS && WaitsAt(s, t, i, L.Timed) && s.pool.words[i] != 0
    ensures P.Enabled(s.pool, Failure(s, t))
    ensures Runs(s, run) && Rested(After(s, run)) && After(s, run).pool == P.Next(s.pool, Failure(s, t))
    ensures After(s, run).drainer == s.drainer
  {
    var first, m := WaitMisses(s, t, i, L.Timed);
    var m1, m2 := Sleeps(m, t, i);
    var n := LeavesWait(m2, t, i);
    hide Runs, After, Next, Enabled, Rested, Alone, WaitsAt, P.Next, P.Enabled;
    run := OneMore(s, first, OfLock(i, L.FutexWait(t)));
    run := OneMore(s, run, OfLock(i, L.Interrupt(t)));
    run := OneMore(s, run, OfLock(i, L.GiveUp(t)));
  }

  /** SetEvent on the event of the connection given back; nobody is asleep, so nobody is woken. */
  lemma EventIsSet(s: System, t: nat, i: nat) returns (run: seq<Step>)
    requires Rested(s) && i < P.CONNECTIONS && t in s.pool.clients
             && s.pool.clients[t] == P.Giving(s.pool.handles[i], i)
    ensures P.Enabled(s.pool, P.Compare(t))
    ensures Runs(s, run) && Rested(After(s, run)) && After(s, run).pool == P.Next(s.pool, P.Compare(t))
    ensures After(s, run).drainer == s.drainer
  {
    RestedIsAlone(s, t, i);
    var release := OfLock(i, L.Release(t));
    assert t != s.drainer;
    OwnStep(s, t, i, L.Outside, release.a);
    var m := Next(s, release);
    assert Effect(s, i, release.a) == [P.Compare(t)] && m.pool == P.Next(s.pool, P.Compare(t));
    NoRun(s);
    run := OneMore(s, [], release);
    hide Runs, After, Rested;
    if m.locks[i].pcs[t].Drop? {
      var rest := LeavesRelease(m, t, i);
      RunsOn(s, run, rest);
      run := run + rest;
    } else {
      AloneIsRested(m, t, i);
    }
  }

  lemma LeavesRelease(m: System, t: nat, i: nat) returns (run: seq<Step>)
    requires Alone(m, t, i, L.Drop)
    ensures Runs(m, run) && Rested(After(m, run)) && After(m, run).pool == m.pool && After(m, run).drainer == m.drainer
  {
    var drop, wake := OfLock(i, L.Decrement(t)), OfLock(i, L.WakeNobody(t));
    OwnStep(m, t, i, L.Drop, drop.a);
    var k := Next(m, drop);
    assert Effect(m, i, drop.a) == [];
    NoRun(m);
    run := OneMore(m, [], drop);
    if k.locks[i].pcs[t].Wake? {
      OwnStep(k, t, i, L.Wake, wake.a);
      var n := Next(k, wake);
      assert Effect(k, i, wake.a) == [];
      AloneIsRested(n, t, i);
      run := OneMore(m, run, wake);
    } else {
      AloneIsRested(k, t, i);
    }
  }

  // ---------------------------------------------------------------- every step of the pool

  /** A wait that fails has waited: its event is not signalled. */
  predicate Waited(s: P.Pool, a: P.Action)
    requires P.Shaped(s) && P.Enabled(s, a)
  {
    (a.Interrupted? ==> s.words[0] != 0) && (a.DrainInterrupted? ==> s.words[s.closer.i] != 0)
  }

  /** The steps without an event. */
  lemma StepApart(s: System, a: P.Action) returns (run: seq<Step>)
    requires Rested(s) && P.Enabled(s.pool, a) && Apart(s, a)
    ensures Runs(s, run) && Rested(After(s, run)) && After(s, run).pool == P.Next(s.pool, a)
    ensures After(s, run).drainer == s.drainer
  {
    var step := OfPool(a);
    StepKeepsInv(s, step);
    var n := Next(s, step);
    assert n.locks == s.locks && n.pool.clients.Keys == s.pool.clients.Keys && n.pool == P.Next(s.pool, a);
    NoRun(s);
    run := OneMore(s, [], step);
  }

  /** Every step of the pool is made by the whole, which comes to rest again. */
  lemma StepIsMade(s: System, a: P.Action) returns (run: seq<Step>)
    requires Rested(s) && P.Enabled(s.pool, a) && Waited(s.pool, a)
    ensures Runs(s, run) && Rested(After(s, run)) && After(s, run).pool == P.Next(s.pool, a)
    ensures After(s, run).drainer == s.drainer
  {
    assert Shaped(s);
    hide Runs, After, Inv, Staffed;
    match a
    case Reserve(t) => RestedIsAlone(s, t, 0); run := StepApart(s, a);
    case Return(t) => RestedIsAlone(s, t, 0); run := StepApart(s, a);
    case Interrupted(t) => run := WaitIsInterrupted(s, t, 0);
    case DrainInterrupted => run := WaitIsInterrupted(s, s.drainer, s.pool.closer.i);
    case Compare(t) =>
      var c := s.pool.clients[t];
      RestedIsAlone(s, t, 0);
      if c.h == s.pool.handles[c.i] { run := EventIsSet(s, t, c.i); } else { run := StepApart(s, a); }
    case DrainTry =>
      var i := s.pool.closer.i;
      if s.pool.words[i] == 0 { run := WaitTakes(s, s.drainer, i, L.Timed); } else { run := Nothing(s); }
    case TryTake(t) =>
      var c := s.pool.clients[t];
      var i, op := if c.Scan? then c.i else 0, if c.Scan? then L.Try else L.Timed;
      if s.pool.words[i] == 0 {
        run := WaitTakes(s, t, i, op);
      } else if c.Scan? {
        run := TryFails(s, t, i);
      } else {
        run := Nothing(s);
      }
    case _ => run := StepApart(s, a);
  }

  lemma Nothing(s: System) returns (run: seq<Step>)
    requires Shaped(s)
    ensures Runs(s, run) && After(s, run) == s
  {
    NoRun(s);
    run := [];
  }

  predicate AllWaited(s: P.Pool, acts: seq<P.Action>)
    requires P.Shaped(s) && P.Runs(s, acts)
    decreases |acts|
  {
    acts == [] || (Waited(s, acts[0]) && AllWaited(P.Next(s, acts[0]), acts[1..]))
  }

  lemma {:induction false} RunIsMade(s: System, acts: seq<P.Action>) returns (run: seq<Step>)
    requires Rested(s) && P.Runs(s.pool, acts) && AllWaited(s.pool, acts)
    ensures Runs(s, run) && Rested(After(s, run)) && After(s, run).pool == P.After(s.pool, acts)
    decreases |acts|
  {
    assert Shaped(s);
    hide Runs, After, Rested, Waited, P.Enabled, P.Next;
    if acts == [] {
      run := Nothing(s);
    } else {
      var first := StepIsMade(s, acts[0]);
      var rest := RunIsMade(After(s, first), acts[1..]);
      RunsOn(s, first, rest);
      run := first + rest;
    }
  }

  /**
   Every run of the pool in which waits only fail for events that are taken is the view some run of the whole gives
   of itself: together with RefinesPool, the locks show nothing but what the words do, and all of it.
   */
  lemma PoolRunsAreMade(s: System, acts: seq<P.Action>) returns (run: seq<Step>)
    requires Created(s) && Staffed(s) && P.Runs(s.pool, acts) && AllWaited(s.pool, acts)
    ensures Runs(s, run) && After(s, run).pool == P.After(s.pool, acts)
  {
    CreatedInv(s);
    run := RunIsMade(s, acts);
  }

  lemma {:induction false} HeededHasWaited(s: P.Pool, acts: seq<P.Action>)
    requires P.Shaped(s) && P.Runs(s, acts) && P.Heeded(acts)
    ensures AllWaited(s, acts)
    decreases |acts|
  {
    hide P.Next, P.Enabled;
    if acts != [] {
      assert acts[0] in acts && forall a :: a in acts[1..] ==> a in acts;
      HeededHasWaited(P.Next(s, acts[0]), acts[1..]);
    }
  }

  /** Whenever nobody is inside a lock function, FcClose can be carried out to its end on the real locks. */
  lemma WholeCanBeClosed(s: System, run: seq<Step>) returns (more: seq<Step>)
    requires Created(s) && Runs(s, run) && Calm(run) && Rested(After(s, run))
    ensures Runs(After(s, run), more) && After(After(s, run), more).pool.closer.Done?
  {
    CreatedInv(s);
    RefinesPool(s, run);
    CalmIsHeeded(s, run);
    var acts := P.PoolCanBeClosed(s.pool, PoolRun(s, run));
    HeededHasWaited(After(s, run).pool, acts);
    more := RunIsMade(After(s, run), acts);
  }
}
