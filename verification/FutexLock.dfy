/**
 The SRW lock emulation of vmm/oscompatibility.c as a step system: a word `xchg` that is 1 while the lock is
 taken, a counter `c` that tells a releaser whether anybody may be asleep, and the futex system call. Each
 atomic operation of the code is one step of one thread; any number of threads interleave in any order.
 */
module FutexLock {

  type Tid = nat

  const DWORD_SIZE: int := 0x1_0000_0000

  datatype Op = Blocking | Try | Timed

  /** Where a thread stands in the lock functions. */
  datatype Pc =
    | Outside          // in none of them
    | Cas(op: Op)      // counted in `c`, about to compare and exchange
    | Call(op: Op)     // the exchange failed, about to call FUTEX_WAIT
    | Asleep(op: Op)   // queued by the kernel
    | Undo             // giving up, about to decrement `c` and return FALSE
    | Drop             // has released `xchg`, about to decrement `c`
    | Wake             // `c` was not zero, about to call FUTEX_WAKE

  /**
   `holders`: the threads whose acquire returned TRUE and that have not begun to release; the code has no such field.
   */
  datatype Lock = Lock(xchg: nat, c: nat, pcs: map<Tid, Pc>, holders: set<Tid>)

  datatype Action =
    | Begin(t: Tid, op: Op)         // any acquire function, up to its increment of `c`
    | Exchange(t: Tid)              // compare and exchange 0 by 1
    | FutexWait(t: Tid)             // sleeps if the word is still 1
    | Spurious(t: Tid)              // FUTEX_WAIT returns without a wake-up call
    | TimeOut(t: Tid)               // ETIMEDOUT
    | Interrupt(t: Tid)             // EINTR
    | GiveUp(t: Tid)
    | Release(t: Tid)               // compare and exchange 1 by 0
    | Decrement(t: Tid)
    | FutexWake(t: Tid, u: Tid)     // wakes the sleeper `u`
    | WakeNobody(t: Tid)

  predicate Enabled(s: Lock, a: Action) {
    && a.t in s.pcs
    && var pc := s.pcs[a.t];
       match a
       case Begin(_, _) => pc.Outside?
       case Exchange(_) => pc.Cas?
       case FutexWait(_) => pc.Call?
       case Spurious(_) => pc.Asleep?
       case TimeOut(_) => pc.Asleep? && pc.op.Timed?
       case Interrupt(_) => pc.Asleep?
       case GiveUp(_) => pc.Undo?
       case Release(_) => pc.Outside?
       case Decrement(_) => pc.Drop?
       case FutexWake(_, u) => pc.Wake? && u in s.pcs && s.pcs[u].Asleep?
       case WakeNobody(_) => pc.Wake? && forall u :: u in s.pcs ==> !s.pcs[u].Asleep?
  }

  function Increased(c: nat): nat { (c + 1) % DWORD_SIZE }
  function Decreased(c: nat): nat { (c + DWORD_SIZE - 1) % DWORD_SIZE }

  function At(s: Lock, t: Tid, pc: Pc): Lock { s.(pcs := s.pcs[t := pc]) }

  function Next(s: Lock, a: Action): Lock
    requires Enabled(s, a)
  {
    var pc := s.pcs[a.t];
    match a
    case Begin(t, op) => At(s, t, Cas(op)).(c := Increased(s.c))
    case Exchange(t) =>
      if s.xchg == 0 then At(s, t, Outside).(xchg := 1, holders := s.holders + {t})
      else if pc.op.Try? then At(s, t, Undo)
      else At(s, t, Call(pc.op))
    case FutexWait(t) => if s.xchg == 1 then At(s, t, Asleep(pc.op)) else At(s, t, Cas(pc.op))
    case Spurious(t) => At(s, t, Cas(pc.op))
    case TimeOut(t) => At(s, t, Undo)
    case Interrupt(t) => if pc.op.Timed? then At(s, t, Undo) else At(s, t, Cas(pc.op))
    case GiveUp(t) => At(s, t, Outside).(c := Decreased(s.c))
    case Release(t) => if s.xchg == 1 then At(s, t, Drop).(xchg := 0, holders := s.holders - {t}) else s
    case Decrement(t) =>
      var c := Decreased(s.c);
      At(s, t, if c != 0 then Wake else Outside).(c := c)
    case FutexWake(t, u) => At(At(s, t, Outside), u, Cas(s.pcs[u].op))
    case WakeNobody(t) => At(s, t, Outside)
  }

  /** A zeroed lock nobody uses yet. */
  predicate Fresh(s: Lock) {
    && s.xchg == 0 && s.c == 0 && s.holders == {}
    && (forall t :: t in s.pcs ==> s.pcs[t].Outside?)
    && |s.pcs| < DWORD_SIZE - 1
  }

  predicate Runs(s: Lock, run: seq<Action>)
    decreases |run|
  {
    run == [] || (Enabled(s, run[0]) && Runs(Next(s, run[0]), run[1..]))
  }

  function After(s: Lock, run: seq<Action>): Lock
    requires Runs(s, run)
    decreases |run|
  {
    if run == [] then s else After(Next(s, run[0]), run[1..])
  }

  // ---------------------------------------------------------------- accounting

  /** The thread's increment of `c` is neither undone nor passed on to a holder. */
  predicate Counted(pc: Pc) { pc.Cas? || pc.Call? || pc.Asleep? || pc.Undo? || pc.Drop? }

  function InFlight(pcs: map<Tid, Pc>): set<Tid> { set t | t in pcs && Counted(pcs[t]) }

  /** A thread that will look at the word again, or wake one that will. */
  predicate Active(pc: Pc) { pc.Cas? || pc.Call? || pc.Drop? || pc.Wake? }

  predicate Sleeper(s: Lock) { exists t :: t in s.pcs && s.pcs[t].Asleep? }

  predicate Attended(s: Lock) { exists t :: t in s.pcs && Active(s.pcs[t]) }

  predicate Inv(s: Lock) {
    && s.xchg <= 1 && |s.pcs| < DWORD_SIZE - 1
    && s.c == s.xchg + |InFlight(s.pcs)|
    && (s.xchg == 0 && Sleeper(s) ==> Attended(s))
  }

  lemma InFlightIsFew(pcs: map<Tid, Pc>)
    ensures |InFlight(pcs)| <= |pcs|
  {
    assert InFlight(pcs) <= pcs.Keys;
    Subset(InFlight(pcs), pcs.Keys);
  }

  lemma {:induction false} Subset<T>(a: set<T>, b: set<T>)
    requires a <= b
    ensures |a| <= |b|
  {
    if a != {} {
      var x :| x in a;
      Subset(a - {x}, b - {x});
    }
  }

  /** One thread moves: the number in flight changes by what that thread's move says. */
  lemma Moved(pcs: map<Tid, Pc>, t: Tid, pc: Pc)
    requires t in pcs
    ensures |pcs[t := pc]| == |pcs|
    ensures |InFlight(pcs[t := pc])| + (if Counted(pcs[t]) then 1 else 0) ==
            |InFlight(pcs)| + (if Counted(pc) then 1 else 0)
  {
    var after := pcs[t := pc];
    assert after.Keys == pcs.Keys;
    assert InFlight(after) - {t} == InFlight(pcs) - {t};
    assert Counted(pc) ==> InFlight(after) == (InFlight(after) - {t}) + {t};
    assert !Counted(pc) ==> InFlight(after) == InFlight(after) - {t};
    assert Counted(pcs[t]) ==> InFlight(pcs) == (InFlight(pcs) - {t}) + {t};
    assert !Counted(pcs[t]) ==> InFlight(pcs) == InFlight(pcs) - {t};
  }

  lemma StepKeepsCount(s: Lock, a: Action)
    requires Inv(s) && Enabled(s, a)
    ensures var n := Next(s, a);
            && n.xchg <= 1 && n.pcs.Keys == s.pcs.Keys && |n.pcs| == |s.pcs|
            && n.c == n.xchg + |InFlight(n.pcs)|
  {
    hide InFlight, Counted;
    var n := Next(s, a);
    InFlightIsFew(s.pcs);
    InFlightIsFew(n.pcs);
    CountedCases();
    Moved(s.pcs, a.t, n.pcs[a.t]);
    if a.FutexWake? {
      var mid := s.pcs[a.t := Outside];
      Moved(s.pcs, a.t, Outside);
      Moved(mid, a.u, Cas(s.pcs[a.u].op));
    } else {
      assert a.Release? && s.xchg == 0 ==> s.pcs[a.t := n.pcs[a.t]] == s.pcs;
      assert n.pcs == s.pcs[a.t := n.pcs[a.t]];
    }
  }

  lemma CountedCases()
    ensures forall pc: Pc :: Counted(pc) <==> pc.Cas? || pc.Call? || pc.Asleep? || pc.Undo? || pc.Drop?
  {
  }

  lemma DecrementWakes(n: Lock, u: Tid, w: Tid)
    requires Inv(n) && n.xchg == 0 && u in n.pcs && n.pcs[u].Asleep? && w in n.pcs && n.pcs[w].Drop?
    ensures Enabled(n, Decrement(w))
    ensures var m := Next(n, Decrement(w)); m.pcs == n.pcs[w := Wake] && m.xchg == 0
  {
    hide InFlight;
    SleeperIsCounted(n, u, w);
    InFlightIsFew(n.pcs);
  }

  /** No step loses a wake-up. */
  lemma StepKeepsAttention(s: Lock, a: Action)
    requires Inv(s) && Enabled(s, a)
    ensures var n := Next(s, a); n.xchg == 0 && Sleeper(n) ==> Attended(n)
  {
    hide InFlight;
    var n := Next(s, a);
    if n.xchg == 0 && Sleeper(n) {
      if Active(n.pcs[a.t]) {
      } else if a.FutexWake? {
        assert Active(n.pcs[a.u]);
      } else {
        var u :| u in n.pcs && n.pcs[u].Asleep?;
        assert s.xchg == 0 && s.pcs[u].Asleep?;
        var w :| w in s.pcs && Active(s.pcs[w]);
        if w != a.t {
          assert Active(n.pcs[w]);
        } else if a.Decrement? {
          DecrementWakes(s, u, w);
        }
      }
    }
  }

  lemma SleeperIsCounted(s: Lock, u: Tid, w: Tid)
    requires u in s.pcs && s.pcs[u].Asleep? && w in s.pcs && s.pcs[w].Drop?
    ensures |InFlight(s.pcs)| >= 2
  {
    Subset({u, w}, InFlight(s.pcs));
    assert |{u, w}| == 2;
  }

  lemma StepKeepsInv(s: Lock, a: Action)
    requires Inv(s) && Enabled(s, a)
    ensures Inv(Next(s, a))
  {
    hide InFlight, Next, Enabled, Sleeper, Attended;
    StepKeepsCount(s, a);
    StepKeepsAttention(s, a);
  }

  lemma FreshInv(s: Lock)
    requires Fresh(s)
    ensures Inv(s)
  {
    assert InFlight(s.pcs) == {};
  }

  lemma {:induction false} RunKeepsInv(s: Lock, run: seq<Action>)
    requires Inv(s) && Runs(s, run)
    ensures Inv(After(s, run))
    decreases |run|
  {
    hide Inv, Next, Enabled;
    if run != [] {
      StepKeepsInv(s, run[0]);
      RunKeepsInv(Next(s, run[0]), run[1..]);
    }
  }

  /** In every reachable state `c` is `xchg` plus the attempts in flight and the releasers before their decrement. */
  lemma CountIsExact(s: Lock, run: seq<Action>)
    requires Fresh(s) && Runs(s, run)
    ensures var n := After(s, run); n.xchg <= 1 && n.c == n.xchg + |InFlight(n.pcs)|
  {
    FreshInv(s);
    RunKeepsInv(s, run);
  }

  /** When the lock is free and somebody sleeps, somebody else will still look at the word or wake a sleeper. */
  lemma NoLostWakeup(s: Lock, run: seq<Action>)
    requires Fresh(s) && Runs(s, run) && After(s, run).xchg == 0 && Sleeper(After(s, run))
    ensures Attended(After(s, run))
  {
    FreshInv(s);
    RunKeepsInv(s, run);
  }

  /**
   Once every thread is outside or asleep, a sleeper means that the lock is taken, and `c` counts taker and sleepers.
   */
  lemma NoStuckSleeper(s: Lock, run: seq<Action>)
    requires Fresh(s) && Runs(s, run)
    requires var n := After(s, run); forall t :: t in n.pcs ==> n.pcs[t].Outside? || n.pcs[t].Asleep?
    ensures var n := After(s, run);
            && (Sleeper(n) ==> n.xchg == 1)
            && n.c == n.xchg + |set t | t in n.pcs && n.pcs[t].Asleep?|
  {
    FreshInv(s);
    RunKeepsInv(s, run);
    var n := After(s, run);
    assert InFlight(n.pcs) == set t | t in n.pcs && n.pcs[t].Asleep?;
  }

  // ---------------------------------------------------------------- how an acquire ends

  /** The thread is inside an acquire that has not been decided. */
  predicate Trying(s: Lock, t: Tid, op: Op) {
    t in s.pcs && (s.pcs[t] == Cas(op) || s.pcs[t] == Call(op) || s.pcs[t] == Asleep(op))
  }

  /** The step in which the thread finds the word free and takes the lock. */
  predicate Takes(s: Lock, a: Action, t: Tid)
    requires Enabled(s, a)
  {
    var n := Next(s, a);
    a == Exchange(t) && t in n.pcs && s.xchg == 0 && n.xchg == 1 && n.pcs[t].Outside? && t in n.holders
  }

  /** The step in which a try finds the word taken, or a timed acquire is roused by time or a signal. */
  predicate Fails(s: Lock, a: Action, t: Tid, op: Op)
    requires Enabled(s, a) && t in s.pcs
  {
    && t in Next(s, a).pcs && Next(s, a).pcs[t].Undo? && Next(s, a).holders == s.holders
    && ((op.Try? && a == Exchange(t) && s.xchg != 0)
        || (op.Timed? && s.pcs[t].Asleep? && (a == TimeOut(t) || a == Interrupt(t))))
  }

  /**
   An acquire goes on with the same kind of attempt until it takes the lock or fails, and a blocking one never
   fails. What other threads do never ends it.
   */
  lemma AttemptEnds(s: Lock, a: Action, t: Tid, op: Op)
    requires Enabled(s, a) && t in s.pcs && Trying(s, t, op)
    ensures t in Next(s, a).pcs && (Trying(Next(s, a), t, op) || Takes(s, a, t) || Fails(s, a, t, op))
    ensures a == Exchange(t) ==> (Takes(s, a, t) <==> s.xchg == 0)
  {
  }

  /** The run contains the step that takes the lock, or the one that fails. */
  predicate Decides(s: Lock, run: seq<Action>, t: Tid, op: Op)
    requires Runs(s, run) && t in s.pcs
    decreases |run|
  {
    && run != []
    && (Takes(s, run[0], t) || (!op.Blocking? && Fails(s, run[0], t, op))
        || (t in Next(s, run[0]).pcs && Trying(Next(s, run[0]), t, op) && Decides(Next(s, run[0]), run[1..], t, op)))
  }

  /** No acquire of a run comes to an end undecided; in particular a blocking one returns with the lock taken. */
  lemma {:induction false} NoAcquireGivesUpSilently(s: Lock, run: seq<Action>, t: Tid, op: Op)
    requires Runs(s, run) && t in s.pcs && Trying(s, t, op)
    ensures t in After(s, run).pcs && (Trying(After(s, run), t, op) || Decides(s, run, t, op))
    decreases |run|
  {
    hide Enabled, Next, Trying, Takes, Fails;
    if run != [] {
      var n := Next(s, run[0]);
      AttemptEnds(s, run[0], t, op);
      RunKeepsThreads(n, run[1..]);
      NoFailingBlocker(s, run[0], t, op);
      if Trying(n, t, op) { NoAcquireGivesUpSilently(n, run[1..], t, op); }
    }
  }

  lemma NoFailingBlocker(s: Lock, a: Action, t: Tid, op: Op)
    requires Enabled(s, a) && t in s.pcs
    ensures op.Blocking? ==> !Fails(s, a, t, op)
  {
  }

  lemma {:induction false} RunKeepsThreads(s: Lock, run: seq<Action>)
    requires Runs(s, run)
    ensures After(s, run).pcs.Keys == s.pcs.Keys
    decreases |run|
  {
    if run != [] { RunKeepsThreads(Next(s, run[0]), run[1..]); }
  }

  /** A failed acquire has only its increment to take back. */
  lemma FailureIsUndone(s: Lock, a: Action, t: Tid)
    requires Enabled(s, a) && t in s.pcs && s.pcs[t].Undo?
    ensures var n := Next(s, a);
            && t in n.pcs && (n.pcs[t].Undo? <==> a != GiveUp(t))
            && (a == GiveUp(t) ==> n.pcs[t].Outside? && n.xchg == s.xchg && n.holders == s.holders)
  {
  }

  /**
   What rouses a sleeper, and what it does then: time and signals make a timed acquire return without the lock, and
   everything else makes the thread try again.
   */
  lemma SleepEnds(s: Lock, t: Tid)
    requires t in s.pcs && s.pcs[t].Asleep?
    ensures Enabled(s, TimeOut(t)) <==> s.pcs[t] == Asleep(Timed)
    ensures Enabled(s, Interrupt(t)) && Enabled(s, Spurious(t))
    ensures forall a :: (a == TimeOut(t) || a == Interrupt(t)) && s.pcs[t] == Asleep(Timed) ==>
              && Enabled(s, a) && Enabled(Next(s, a), GiveUp(t))
              && var n := Next(Next(s, a), GiveUp(t));
                 n.pcs == s.pcs[t := Outside] && n.xchg == s.xchg && n.holders == s.holders
    ensures forall a :: (a == Spurious(t) || a == Interrupt(t)) && (a.Spurious? || s.pcs[t] != Asleep(Timed)) ==>
              Next(s, a) == At(s, t, Cas(s.pcs[t].op))
    ensures forall u :: u in s.pcs && s.pcs[u].Wake? ==>
              && Enabled(s, FutexWake(u, t))
              && Next(s, FutexWake(u, t)).pcs == s.pcs[u := Outside][t := Cas(s.pcs[t].op)]
  {
    assert s.pcs[t := Undo][t := Outside] == s.pcs[t := Outside];
  }

  /** A try never waits: neither calls the futex nor sleeps. */
  predicate TriesAwake(s: Lock) {
    forall t :: t in s.pcs && (s.pcs[t].Call? || s.pcs[t].Asleep?) ==> !s.pcs[t].op.Try?
  }

  lemma {:induction false} RunKeepsTriesAwake(s: Lock, run: seq<Action>)
    requires TriesAwake(s) && Runs(s, run)
    ensures TriesAwake(After(s, run))
    decreases |run|
  {
    if run != [] {
      assert TriesAwake(Next(s, run[0]));
      RunKeepsTriesAwake(Next(s, run[0]), run[1..]);
    }
  }

  lemma TryNeverWaits(s: Lock, run: seq<Action>, t: Tid)
    requires Fresh(s) && Runs(s, run) && t in After(s, run).pcs
    ensures After(s, run).pcs[t] != Call(Try) && After(s, run).pcs[t] != Asleep(Try)
  {
    RunKeepsTriesAwake(s, run);
  }

  /**
   From every reachable state: a releaser calls the kernel exactly when the lock is taken anew or others are inside.
   */
  lemma WakesOnlyForOthers(s: Lock, run: seq<Action>, t: Tid)
    requires Fresh(s) && Runs(s, run) && Enabled(After(s, run), Decrement(t))
    ensures var n := Next(After(s, run), Decrement(t)); n.pcs[t].Wake? <==> n.xchg == 1 || InFlight(n.pcs) != {}
  {
    FreshInv(s);
    RunKeepsInv(s, run);
    var m := After(s, run);
    StepKeepsInv(m, Decrement(t));
    var n := Next(m, Decrement(t));
    hide InFlight;
    assert n.c == n.xchg + |InFlight(n.pcs)|;
  }

  /** Nobody but a sleeper ever waits: every other thread has a step it can make. */
  lemma ThreadsCanGoOn(s: Lock, t: Tid, op: Op)
    requires t in s.pcs
    ensures s.pcs[t].Outside? ==>
              Enabled(s, Begin(t, op)) && Trying(Next(s, Begin(t, op)), t, op) && Enabled(s, Release(t))
    ensures s.pcs[t].Cas? ==> Enabled(s, Exchange(t))
    ensures s.pcs[t].Call? ==> Enabled(s, FutexWait(t))
    ensures s.pcs[t].Undo? ==> Enabled(s, GiveUp(t))
    ensures s.pcs[t].Drop? ==> Enabled(s, Decrement(t))
    ensures s.pcs[t].Wake? ==> Enabled(s, WakeNobody(t)) || exists u :: Enabled(s, FutexWake(t, u))
  {
    if s.pcs[t].Wake? && !Enabled(s, WakeNobody(t)) {
      var u :| u in s.pcs && s.pcs[u].Asleep?;
      assert Enabled(s, FutexWake(t, u));
    }
  }

  // ---------------------------------------------------------------- progress

  /** Steps that finish what threads have begun; no new call, no timeout, no signal. */
  predicate Internal(a: Action) {
    a.Exchange? || a.FutexWait? || a.Decrement? || a.FutexWake?
  }

  /** From every reachable state with a free lock and a sleeper, three steps of threads under way take the lock. */
  lemma LockGetsTaken(s: Lock, run: seq<Action>) returns (more: seq<Action>)
    requires Fresh(s) && Runs(s, run) && After(s, run).xchg == 0 && Sleeper(After(s, run))
    ensures |more| <= 3 && (forall a :: a in more ==> Internal(a))
    ensures Runs(After(s, run), more) && After(After(s, run), more).xchg == 1
  {
    NoLostWakeup(s, run);
    FreshInv(s);
    RunKeepsInv(s, run);
    var n := After(s, run);
    hide Inv, InFlight, After, Runs;
    var w :| w in n.pcs && Active(n.pcs[w]);
    var u :| u in n.pcs && n.pcs[u].Asleep?;
    hide Enabled, Next;
    if n.pcs[w].Cas? {
      more := CasTakes(n, w);
    } else if n.pcs[w].Call? {
      more := CallTakes(n, w);
    } else if n.pcs[w].Wake? {
      more := WakeTakes(n, w, u);
    } else {
      more := DropTakes(n, w, u);
    }
  }

  lemma CasTakes(n: Lock, w: Tid) returns (more: seq<Action>)
    requires n.xchg == 0 && w in n.pcs && n.pcs[w].Cas?
    ensures more == [Exchange(w)] && Runs(n, more) && After(n, more).xchg == 1
  {
    hide Runs, After;
    more := [Exchange(w)];
    RunOne(n, Exchange(w));
  }

  lemma CallTakes(n: Lock, w: Tid) returns (more: seq<Action>)
    requires n.xchg == 0 && w in n.pcs && n.pcs[w].Call?
    ensures more == [FutexWait(w), Exchange(w)] && Runs(n, more) && After(n, more).xchg == 1
  {
    hide Runs, After;
    var m := Next(n, FutexWait(w));
    assert m.xchg == 0 && m.pcs[w].Cas?;
    more := CasTakes(m, w);
    RunMore(n, FutexWait(w), more);
    more := [FutexWait(w)] + more;
  }

  lemma WakeTakes(n: Lock, w: Tid, u: Tid) returns (more: seq<Action>)
    requires n.xchg == 0 && w in n.pcs && n.pcs[w].Wake? && u in n.pcs && n.pcs[u].Asleep?
    ensures more == [FutexWake(w, u), Exchange(u)] && Runs(n, more) && After(n, more).xchg == 1
  {
    hide Runs, After;
    var m := Next(n, FutexWake(w, u));
    assert m.xchg == 0 && m.pcs[u].Cas?;
    more := CasTakes(m, u);
    RunMore(n, FutexWake(w, u), more);
    more := [FutexWake(w, u)] + more;
  }

  lemma DropTakes(n: Lock, w: Tid, u: Tid) returns (more: seq<Action>)
    requires Inv(n) && n.xchg == 0 && w in n.pcs && n.pcs[w].Drop? && u in n.pcs && n.pcs[u].Asleep?
    ensures more == [Decrement(w), FutexWake(w, u), Exchange(u)] && Runs(n, more) && After(n, more).xchg == 1
  {
    hide Runs, After, Inv;
    DecrementWakes(n, u, w);
    more := WakeTakes(Next(n, Decrement(w)), w, u);
    RunMore(n, Decrement(w), more);
    more := [Decrement(w)] + more;
  }

  lemma RunOne(s: Lock, a: Action)
    requires Enabled(s, a)
    ensures Runs(s, [a]) && After(s, [a]) == Next(s, a)
  {
    hide Enabled, Next;
    assert [a][1..] == [];
  }

  lemma RunMore(s: Lock, a: Action, run: seq<Action>)
    requires Enabled(s, a) && Runs(Next(s, a), run)
    ensures Runs(s, [a] + run) && After(s, [a] + run) == After(Next(s, a), run)
  {
    hide Enabled, Next;
    assert ([a] + run)[1..] == run;
  }

  // ---------------------------------------------------------------- mutual exclusion

  /** A run in which only threads that hold the lock release it. */
  predicate Disciplined(s: Lock, run: seq<Action>)
    requires Runs(s, run)
    decreases |run|
  {
    run == [] || ((run[0].Release? ==> run[0].t in s.holders) && Disciplined(Next(s, run[0]), run[1..]))
  }

  predicate Exclusive(s: Lock) { s.xchg == |s.holders| && |s.holders| <= 1 }

  lemma StepKeepsExclusive(s: Lock, a: Action)
    requires Exclusive(s) && Enabled(s, a) && (a.Release? ==> a.t in s.holders)
    ensures Exclusive(Next(s, a))
  {
    if a.Exchange? && s.xchg == 0 {
      assert s.holders == {};
    }
  }

  lemma {:induction false} RunKeepsExclusive(s: Lock, run: seq<Action>)
    requires Exclusive(s) && Runs(s, run) && Disciplined(s, run)
    ensures Exclusive(After(s, run))
    decreases |run|
  {
    hide Exclusive, Next, Enabled;
    if run != [] {
      StepKeepsExclusive(s, run[0]);
      RunKeepsExclusive(Next(s, run[0]), run[1..]);
    }
  }

  /** When only holders release, at most one thread holds the lock, and somebody does exactly while the word is 1. */
  lemma MutualExclusion(s: Lock, run: seq<Action>)
    requires Fresh(s) && Runs(s, run) && Disciplined(s, run)
    ensures var n := After(s, run); |n.holders| <= 1 && (n.xchg == 1 <==> n.holders != {})
  {
    RunKeepsExclusive(s, run);
  }

  /** A try that fails, or a timed acquire that gives up, leaves `c` as the others made it. */
  lemma FailedAttemptsCancel(s: Lock, run: seq<Action>)
    requires Fresh(s) && Runs(s, run) && forall t :: t in After(s, run).pcs ==> After(s, run).pcs[t].Outside?
    ensures After(s, run).c == After(s, run).xchg
  {
    NoStuckSleeper(s, run);
    var n := After(s, run);
    assert (set t | t in n.pcs && n.pcs[t].Asleep?) == {};
  }

  // ---------------------------------------------------------------- what clients see

  /**
   To a client the lock is its word: a step takes it when it was free, frees it when it was taken, or leaves it alone.
   */
  lemma StepsOnWord(s: Lock, a: Action)
    requires Inv(s) && Enabled(s, a)
    ensures var n := Next(s, a);
            && (n.xchg != s.xchg && s.xchg == 0 ==> a.Exchange? && n.holders == s.holders + {a.t})
            && (n.xchg != s.xchg && s.xchg == 1 ==> a.Release?)
            && (n.xchg == s.xchg ==> n.holders == s.holders)
  {
  }
}
