/**
 The pool of database connections of vmm/fc.c (Fc_SqlReserve, Fc_SqlReserveReturn, FcClose) and vmm/infodb.c,
 guarded by one auto-reset event per connection. An event of vmm/oscompatibility.c is a lock: signalled means
 that the lock's word is 0, a wait takes it (0 to 1), SetEvent releases it (1 to 0, nothing if it is 0).
 Module LockedPool puts the real locks in the place of the words.
 */
module EventPool {

  const CONNECTIONS: nat := 4

  type Tid = nat
  type Handle = nat

  datatype Client =
    | Out
    | Single                       // waiting for event 0 in the single-threaded phase
    | Scan(i: nat)                 // WaitForMultipleObjects, about to try event i
    | Has(h: Handle)
    | Giving(h: Handle, i: nat)    // Fc_SqlReserveReturn, about to compare with connection i

  datatype Closer =
    | Open
    | Draining(i: nat)             // about to wait for event i
    | Drained(i: nat)              // the wait returned; event i is closed next, then connection i
    | Done

  datatype Pool = Pool(handles: seq<Handle>, words: seq<nat>, single: bool, clients: map<Tid, Client>,
                       closer: Closer, closed: set<Handle>)

  datatype Action =
    | Reserve(t: Tid)
    | TryTake(t: Tid)
    | Interrupted(t: Tid)          // the wait of the single-threaded phase fails and nobody looks
    | Return(t: Tid)
    | Compare(t: Tid)
    | EndSingle
    | Close
    | DrainTry
    | DrainInterrupted             // the wait of the drain fails and nobody looks
    | CloseNext

  predicate Waiting(c: Client) { c.Single? || c.Scan? }

  predicate Enabled(s: Pool, a: Action) {
    match a
    case Reserve(t) => t in s.clients && s.clients[t].Out? && s.closer.Open?
    case TryTake(t) => t in s.clients && Waiting(s.clients[t])
    case Interrupted(t) => t in s.clients && s.clients[t].Single?
    case Return(t) => t in s.clients && s.clients[t].Has?
    case Compare(t) => t in s.clients && s.clients[t].Giving?
    case EndSingle => s.single
    case Close => s.closer.Open? && forall t :: t in s.clients ==> !Waiting(s.clients[t])
    case DrainTry => s.closer.Draining?
    case DrainInterrupted => s.closer.Draining?
    case CloseNext => s.closer.Drained?
  }

  predicate Shaped(s: Pool) {
    && |s.handles| == CONNECTIONS && |s.words| == CONNECTIONS
    && (s.closer.Draining? || s.closer.Drained? ==> s.closer.i < CONNECTIONS)
    && forall t :: t in s.clients ==> var c := s.clients[t]; (c.Scan? || c.Giving? ==> c.i < CONNECTIONS)
  }

  /** A wait that succeeds takes the event: SetEvent and the drain work on the same word. */
  function Next(s: Pool, a: Action): (n: Pool)
    requires Shaped(s) && Enabled(s, a)
    ensures Shaped(n)
  {
    match a
    case Reserve(t) => s.(clients := s.clients[t := if s.single then Single else Scan(0)])
    case TryTake(t) =>
      var i := if s.clients[t].Scan? then s.clients[t].i else 0;
      if s.words[i] == 0 then s.(words := s.words[i := 1], clients := s.clients[t := Has(s.handles[i])])
      else if s.clients[t].Scan? then s.(clients := s.clients[t := Scan((i + 1) % CONNECTIONS)])
      else s
    case Interrupted(t) => s.(clients := s.clients[t := Has(s.handles[0])])
    case Return(t) => s.(clients := s.clients[t := Giving(s.clients[t].h, 0)])
    case Compare(t) =>
      var h, i := s.clients[t].h, s.clients[t].i;
      if s.handles[i] == h then s.(words := s.words[i := 0], clients := s.clients[t := Out])
      else s.(clients := s.clients[t := if i + 1 < CONNECTIONS then Giving(h, i + 1) else Out])
    case EndSingle => s.(single := false)
    case Close => s.(closer := Draining(0))
    case DrainTry =>
      var i := s.closer.i;
      if s.words[i] == 0 then s.(words := s.words[i := 1], closer := Drained(i)) else s
    case DrainInterrupted => s.(closer := Drained(s.closer.i))
    case CloseNext =>
      var i := s.closer.i;
      s.(closed := s.closed + {s.handles[i]}, closer := if i + 1 < CONNECTIONS then Draining(i + 1) else Done)
  }

  // ---------------------------------------------------------------- who owns a connection

  predicate Reserves(s: Pool, t: Tid, i: nat)
    requires i < |s.handles|
  {
    t in s.clients && (s.clients[t].Has? || s.clients[t].Giving?) && s.clients[t].h == s.handles[i]
  }

  predicate DrainOwns(s: Pool, i: nat) {
    s.closer.Done? || (s.closer.Drained? && i <= s.closer.i) || (s.closer.Draining? && i < s.closer.i)
  }

  /** At most one party owns connection `i`, and the event is unsignalled exactly while one does. */
  ghost predicate Accounted(s: Pool, i: nat)
    requires i < |s.handles| && i < |s.words|
  {
    && s.words[i] <= 1
    && (forall t, u :: Reserves(s, t, i) && Reserves(s, u, i) ==> t == u)
    && (DrainOwns(s, i) ==> forall t :: !Reserves(s, t, i))
    && (s.words[i] == 1 <==> DrainOwns(s, i) || exists t :: Reserves(s, t, i))
  }

  /** The connections before `i` are not the one looked for. */
  predicate Behind(handles: seq<Handle>, h: Handle, i: nat)
    requires i <= |handles|
  {
    forall j :: 0 <= j < i ==> handles[j] != h
  }

  predicate Known(s: Pool, c: Client)
    requires |s.handles| == CONNECTIONS
  {
    && (c.Has? ==> c.h in s.handles)
    && (c.Giving? ==> c.i < CONNECTIONS && c.h in s.handles && Behind(s.handles, c.h, c.i))
  }

  ghost predicate Inv(s: Pool) {
    && Shaped(s)
    && (forall i, j :: 0 <= i < j < CONNECTIONS ==> s.handles[i] != s.handles[j])
    && (forall i :: 0 <= i < CONNECTIONS ==> Accounted(s, i))
    && (forall t :: t in s.clients ==> Known(s, s.clients[t]))
    && (!s.closer.Open? ==> forall t :: t in s.clients ==> !Waiting(s.clients[t]))
    && (forall h :: h in s.closed ==> exists i :: 0 <= i < CONNECTIONS && s.handles[i] == h && DrainOwns(s, i))
  }

  /** The pool as created: every event created signalled, every connection opened separately. */
  predicate Created(s: Pool) {
    && Shaped(s) && s.words == [0, 0, 0, 0] && s.closer.Open? && s.closed == {}
    && (forall i, j :: 0 <= i < j < CONNECTIONS ==> s.handles[i] != s.handles[j])
    && (forall t :: t in s.clients ==> s.clients[t].Out?)
  }

  /** A wait whose failure the caller ignores. */
  predicate Ignored(a: Action) { a.Interrupted? || a.DrainInterrupted? }

  predicate Runs(s: Pool, run: seq<Action>)
    requires Shaped(s)
    decreases |run|
  {
    run == [] || (Enabled(s, run[0]) && Runs(Next(s, run[0]), run[1..]))
  }

  function After(s: Pool, run: seq<Action>): (n: Pool)
    requires Shaped(s) && Runs(s, run)
    ensures Shaped(n)
    decreases |run|
  {
    if run == [] then s else After(Next(s, run[0]), run[1..])
  }

  // ---------------------------------------------------------------- one step

  /** A step that changes nothing about who owns `i` keeps its account. */
  lemma SameOwners(s: Pool, n: Pool, i: nat)
    requires i < |s.words| && i < |s.handles| && i < |n.words| && i < |n.handles|
    requires Accounted(s, i) && n.words[i] == s.words[i] && DrainOwns(n, i) == DrainOwns(s, i)
    requires forall t :: Reserves(n, t, i) <==> Reserves(s, t, i)
    ensures Accounted(n, i)
  {
    hide Reserves, DrainOwns;
  }

  lemma OneClientMoves(s: Pool, n: Pool, t: Tid, i: nat)
    requires i < |s.handles| && n.handles == s.handles && t in n.clients && n.clients == s.clients[t := n.clients[t]]
    ensures forall u :: u != t ==> (Reserves(n, u, i) <==> Reserves(s, u, i))
  {
  }

  /** Connection `i` passes from nobody to the client `t`. */
  lemma Taken(s: Pool, n: Pool, t: Tid, i: nat)
    requires i < |s.words| && i < |s.handles| && i < |n.words| && i < |n.handles|
    requires Accounted(s, i) && s.words[i] == 0 && n.words[i] == 1 && DrainOwns(n, i) == DrainOwns(s, i)
    requires Reserves(n, t, i) && forall u :: u != t ==> (Reserves(n, u, i) <==> Reserves(s, u, i))
    ensures Accounted(n, i)
  {
    hide Reserves, DrainOwns;
    assert forall u :: !Reserves(s, u, i);
  }

  /** Connection `i` passes from the client `t` to nobody. */
  lemma Freed(s: Pool, n: Pool, t: Tid, i: nat)
    requires i < |s.words| && i < |s.handles| && i < |n.words| && i < |n.handles|
    requires Accounted(s, i) && n.words[i] == 0 && DrainOwns(n, i) == DrainOwns(s, i)
    requires Reserves(s, t, i) && !Reserves(n, t, i)
    requires forall u :: u != t ==> (Reserves(n, u, i) <==> Reserves(s, u, i))
    ensures Accounted(n, i)
  {
    hide Reserves, DrainOwns;
    assert forall u :: Reserves(s, u, i) ==> u == t;
    assert forall u :: !Reserves(n, u, i);
  }

  lemma TakeKeepsAccounts(s: Pool, t: Tid, i: nat)
    requires Inv(s) && Enabled(s, TryTake(t)) && i < CONNECTIONS
    ensures Accounted(Next(s, TryTake(t)), i)
  {
    hide Accounted, Known;
    var n := Next(s, TryTake(t));
    var k := if s.clients[t].Scan? then s.clients[t].i else 0;
    assert Accounted(s, i);
    OneClientMoves(s, n, t, i);
    if s.words[k] == 0 && i == k {
      assert Reserves(n, t, i);
      Taken(s, n, t, i);
    } else {
      assert s.handles[i] != s.handles[k] || i == k;
      assert !Reserves(n, t, i) && !Reserves(s, t, i);
      SameOwners(s, n, i);
    }
  }

  lemma CompareKeepsAccounts(s: Pool, t: Tid, i: nat)
    requires Inv(s) && Enabled(s, Compare(t)) && i < CONNECTIONS
    ensures Accounted(Next(s, Compare(t)), i)
  {
    hide Accounted;
    var n := Next(s, Compare(t));
    var h, k := s.clients[t].h, s.clients[t].i;
    assert Known(s, s.clients[t]) && Accounted(s, i);
    OneClientMoves(s, n, t, i);
    if s.handles[k] == h {
      assert !Reserves(n, t, i);
      if i == k {
        Freed(s, n, t, i);
      } else {
        assert s.handles[i] != s.handles[k];
        SameOwners(s, n, i);
      }
    } else {
      StillAhead(s.handles, h, k);
      assert Reserves(n, t, i) <==> Reserves(s, t, i);
      SameOwners(s, n, i);
    }
  }

  lemma StillAhead(handles: seq<Handle>, h: Handle, k: nat)
    requires k < |handles| && h in handles && Behind(handles, h, k) && handles[k] != h
    ensures k + 1 < |handles| && Behind(handles, h, k + 1)
  {
  }

  lemma DrainKeepsAccounts(s: Pool, i: nat)
    requires Inv(s) && Enabled(s, DrainTry) && i < CONNECTIONS
    ensures Accounted(Next(s, DrainTry), i)
  {
    var n := Next(s, DrainTry);
    var k := s.closer.i;
    assert Accounted(s, i);
    if s.words[k] == 0 && i == k {
      assert forall u :: Reserves(n, u, i) <==> Reserves(s, u, i);
      assert n.words[i] == 1 && DrainOwns(n, i);
    } else {
      SameOwners(s, n, i);
    }
  }

  lemma StepKeepsAccounts(s: Pool, a: Action, i: nat)
    requires Inv(s) && Enabled(s, a) && !Ignored(a) && i < CONNECTIONS
    ensures Accounted(Next(s, a), i)
  {
    hide Known;
    if a.TryTake? {
      TakeKeepsAccounts(s, a.t, i);
    } else if a.Compare? {
      CompareKeepsAccounts(s, a.t, i);
    } else if a.DrainTry? {
      DrainKeepsAccounts(s, i);
    } else {
      SameOwners(s, Next(s, a), i);
    }
  }

  lemma StepKeepsKnown(s: Pool, a: Action, t: Tid)
    requires Inv(s) && Enabled(s, a) && t in Next(s, a).clients
    ensures Known(Next(s, a), Next(s, a).clients[t])
  {
    hide Accounted, DrainOwns, Behind;
    assert t in s.clients && Known(s, s.clients[t]);
    if a.Return? && a.t == t {
      NothingBehind(s.handles, s.clients[t].h);
    } else if a.Compare? && a.t == t {
      var h, k := s.clients[t].h, s.clients[t].i;
      if s.handles[k] != h { StillAhead(s.handles, h, k); }
    }
  }

  lemma NothingBehind(handles: seq<Handle>, h: Handle)
    ensures Behind(handles, h, 0)
  {
  }

  lemma StepKeepsClosed(s: Pool, a: Action)
    requires Inv(s) && Enabled(s, a)
    ensures var n := Next(s, a);
            && (!n.closer.Open? ==> forall t :: t in n.clients ==> !Waiting(n.clients[t]))
            && forall h :: h in n.closed ==> exists i :: 0 <= i < CONNECTIONS && n.handles[i] == h && DrainOwns(n, i)
  {
    hide Accounted, Known;
    var n := Next(s, a);
    forall h | h in n.closed ensures exists i :: 0 <= i < CONNECTIONS && n.handles[i] == h && DrainOwns(n, i) {
      if h in s.closed {
        var i :| 0 <= i < CONNECTIONS && s.handles[i] == h && DrainOwns(s, i);
        assert n.handles[i] == h && DrainOwns(n, i);
      } else {
        assert n.handles[s.closer.i] == h && DrainOwns(n, s.closer.i);
      }
    }
  }

  /** Two owners, or an owner whose event is signalled: what an ignored wait leaves behind. */
  lemma IgnoredBreaks(s: Pool, a: Action)
    requires Inv(s) && Enabled(s, a) && Ignored(a)
    ensures !Inv(Next(s, a))
  {
    var n := Next(s, a);
    var i := if a.Interrupted? then 0 else s.closer.i;
    assert Accounted(s, i);
    if a.Interrupted? {
      assert Reserves(n, a.t, 0);
      if s.words[0] == 1 {
        var u :| Reserves(s, u, 0);
        assert Reserves(n, u, 0) && u != a.t;
      }
    } else {
      assert DrainOwns(n, i);
      if s.words[i] == 1 {
        var u :| Reserves(s, u, i);
        assert Reserves(n, u, i);
      }
    }
    assert !Accounted(n, i);
  }

  /** A step keeps the accounts exactly when it is no ignored wait. */
  lemma StepKeepsInvIff(s: Pool, a: Action)
    requires Inv(s) && Enabled(s, a)
    ensures Inv(Next(s, a)) <==> !Ignored(a)
  {
    if Ignored(a) {
      IgnoredBreaks(s, a);
    } else {
      hide Accounted, Known, DrainOwns, Waiting;
      var n := Next(s, a);
      assert n.handles == s.handles;
      forall i | 0 <= i < CONNECTIONS ensures Accounted(n, i) { StepKeepsAccounts(s, a, i); }
      forall t | t in n.clients ensures Known(n, n.clients[t]) { StepKeepsKnown(s, a, t); }
      StepKeepsClosed(s, a);
    }
  }

  lemma CreatedInv(s: Pool)
    requires Created(s)
    ensures Inv(s)
  {
    forall i | 0 <= i < CONNECTIONS ensures Accounted(s, i) {
      assert forall t :: !Reserves(s, t, i);
    }
  }

  predicate Heeded(run: seq<Action>) { forall a :: a in run ==> !Ignored(a) }

  lemma {:induction false} RunKeepsInv(s: Pool, run: seq<Action>)
    requires Inv(s) && Runs(s, run) && Heeded(run)
    ensures Inv(After(s, run))
    decreases |run|
  {
    if run != [] {
      assert run[0] in run && forall a :: a in run[1..] ==> a in run;
      hide Inv, Next, Enabled, Ignored;
      StepKeepsInvIff(s, run[0]);
      RunKeepsInv(Next(s, run[0]), run[1..]);
    }
  }

  // ---------------------------------------------------------------- whole runs

  /** No connection is ever reserved twice, and event `i` is unsignalled exactly while `i` is reserved or drained. */
  lemma ReservationsAreExclusive(s: Pool, run: seq<Action>, i: nat)
    requires Created(s) && Runs(s, run) && Heeded(run) && i < CONNECTIONS
    ensures var n := After(s, run);
            && (forall t, u :: Reserves(n, t, i) && Reserves(n, u, i) ==> t == u)
            && (n.words[i] == 1 <==> DrainOwns(n, i) || exists t :: Reserves(n, t, i))
            && n.words[i] <= 1
  {
    CreatedInv(s);
    RunKeepsInv(s, run);
    assert Accounted(After(s, run), i);
  }

  /** A connection is closed only when nobody holds it, and nobody ever gets hold of a closed one. */
  lemma ClosedConnectionsAreFree(s: Pool, run: seq<Action>, t: Tid)
    requires Created(s) && Runs(s, run) && Heeded(run)
    requires var n := After(s, run); t in n.clients && (n.clients[t].Has? || n.clients[t].Giving?)
    ensures var n := After(s, run); n.clients[t].h !in n.closed && n.clients[t].h in n.handles
  {
    CreatedInv(s);
    RunKeepsInv(s, run);
    var n := After(s, run);
    var h := n.clients[t].h;
    assert Known(n, n.clients[t]);
    if h in n.closed {
      var i :| 0 <= i < CONNECTIONS && n.handles[i] == h && DrainOwns(n, i);
      assert Accounted(n, i) && Reserves(n, t, i);
      assert false;
    }
  }

  /** Once every connection has been returned, the drain does not wait. */
  lemma DrainNeverStuck(s: Pool, run: seq<Action>)
    requires Created(s) && Runs(s, run) && Heeded(run) && After(s, run).closer.Draining?
    requires var n := After(s, run); forall t :: t in n.clients ==> n.clients[t].Out?
    ensures var n := After(s, run); Next(n, DrainTry).closer == Drained(n.closer.i)
  {
    CreatedInv(s);
    RunKeepsInv(s, run);
    var n := After(s, run);
    assert Accounted(n, n.closer.i);
    assert forall t :: !Reserves(n, t, n.closer.i);
  }

  /** A return finds the event of its own connection: after `k` unequal handles the next one is equal. */
  lemma ReturnSignalsOwnEvent(s: Pool, run: seq<Action>, t: Tid, i: nat)
    requires Created(s) && Runs(s, run) && Heeded(run) && i < CONNECTIONS
    requires var n := After(s, run); t in n.clients && n.clients[t].Giving? && n.clients[t].h == n.handles[i]
    ensures var n := After(s, run); var m := Next(n, Compare(t));
            && n.clients[t].i <= i
            && (if n.clients[t].i == i then
                  m.clients[t] == Out && m.words == n.words[i := 0] && n.words[i] == 1
                else
                  m.clients[t] == Giving(n.clients[t].h, n.clients[t].i + 1) && m.words == n.words)
  {
    CreatedInv(s);
    RunKeepsInv(s, run);
    var n := After(s, run);
    var h, k := n.clients[t].h, n.clients[t].i;
    assert Known(n, n.clients[t]);
    assert k <= i;
    assert Reserves(n, t, i) && Accounted(n, i);
  }

  /** The run in which two clients end up with connection 0: the second one's wait was interrupted. */
  lemma InterruptedWaitSharesConnection(s: Pool)
    requires Created(s) && s.single && 1 in s.clients && 2 in s.clients
    ensures var run := [Reserve(1), TryTake(1), Reserve(2), Interrupted(2)];
            Runs(s, run) && Reserves(After(s, run), 1, 0) && Reserves(After(s, run), 2, 0)
  {
    var a, b, c, d := Reserve(1), TryTake(1), Reserve(2), Interrupted(2);
    var run := [a, b, c, d];
    assert run[1..] == [b, c, d] && run[1..][1..] == [c, d] && run[1..][1..][1..] == [d]
           && run[1..][1..][1..][1..] == [];
    var s1 := Next(s, a);
    var s2 := Next(s1, b);
    var s3 := Next(s2, c);
    var s4 := Next(s3, d);
    assert Runs(s4, []) && Runs(s3, [d]) && Runs(s2, [c, d]) && Runs(s1, [b, c, d]) && Runs(s, run);
    assert After(s4, []) == s4 && After(s3, [d]) == s4 && After(s2, [c, d]) == s4 && After(s1, [b, c, d]) == s4;
  }

  /** The run in which the drain closes connection 0 under a client that has it: the drain's wait was interrupted. */
  lemma InterruptedDrainClosesUsedConnection(s: Pool)
    requires Created(s) && s.single && 1 in s.clients
    ensures var run := [Reserve(1), TryTake(1), Close, DrainInterrupted, CloseNext];
            Runs(s, run) && After(s, run).clients[1] == Has(s.handles[0]) && s.handles[0] in After(s, run).closed
  {
    var s1 := Next(s, Reserve(1));
    var s2 := Next(s1, TryTake(1));
    assert s2.clients == s.clients[1 := Has(s.handles[0])];
    var s3 := Next(s2, Close);
    var s4 := Next(s3, DrainInterrupted);
    var s5 := Next(s4, CloseNext);
    assert s5.clients[1] == Has(s.handles[0]) && s.handles[0] in s5.closed;
    hide Next, Enabled;
    assert Runs(s5, []) && After(s5, []) == s5;
    RunOn(s4, CloseNext, []);
    RunOn(s3, DrainInterrupted, [CloseNext] + []);
    RunOn(s2, Close, [DrainInterrupted] + ([CloseNext] + []));
    RunOn(s1, TryTake(1), [Close] + ([DrainInterrupted] + ([CloseNext] + [])));
    RunOn(s, Reserve(1), [TryTake(1)] + ([Close] + ([DrainInterrupted] + ([CloseNext] + []))));
  }

  // ---------------------------------------------------------------- waits that succeed

  /**
   In the multi-threaded phase a Reserve looks at all events, from the first one on; before, at the first one only.
   */
  lemma ReserveStarts(s: Pool, t: Tid)
    requires Shaped(s) && t in s.clients && s.clients[t].Out? && s.closer.Open?
    ensures Enabled(s, Reserve(t))
    ensures Next(s, Reserve(t)) == s.(clients := s.clients[t := if s.single then Single else Scan(0)])
    ensures s.single ==> Enabled(s, EndSingle) && !Next(s, EndSingle).single
  {
  }

  /** The event `k` places after event `i`, round the end. */
  function Around(i: nat, k: nat): (j: nat)
    ensures j < CONNECTIONS
  {
    (i + k) % CONNECTIONS
  }

  /** The event a scan from event `i` on comes to after `d` others is the first one signalled. */
  predicate FirstFree(words: seq<nat>, i: nat, d: nat)
    requires |words| == CONNECTIONS
  {
    d < CONNECTIONS && words[Around(i, d)] == 0 && forall k :: 0 <= k < d ==> words[Around(i, k)] != 0
  }

  lemma SomeIsFirst(words: seq<nat>, i: nat) returns (d: nat)
    requires |words| == CONNECTIONS && i < CONNECTIONS && 0 in words
    ensures FirstFree(words, i, d)
  {
    var j :| 0 <= j < CONNECTIONS && words[j] == 0;
    var far := if j >= i then j - i else j + CONNECTIONS - i;
    assert Around(i, far) == j;
    d := 0;
    while words[Around(i, d)] != 0
      invariant d <= far && forall k :: 0 <= k < d ==> words[Around(i, k)] != 0
      decreases far - d
    {
      d := d + 1;
    }
  }

  /** The step of a scan at a signalled event, and at another one. */
  lemma ScanStep(s: Pool, t: Tid, i: nat)
    requires Shaped(s) && i < CONNECTIONS && t in s.clients && s.clients[t] == Scan(i)
    ensures Enabled(s, TryTake(t))
    ensures Next(s, TryTake(t)) ==
            if s.words[i] == 0 then s.(words := s.words[i := 1], clients := s.clients[t := Has(s.handles[i])])
            else s.(clients := s.clients[t := Scan(if i + 1 == CONNECTIONS then 0 else i + 1)])
  {
  }

  /**
   A scan takes the first signalled event it comes to, after as many tries as there are events before that; nothing
   but this event and this client changes.
   */
  lemma {:induction false} ScanTakesFirstFree(s: Pool, t: Tid, i: nat, d: nat) returns (run: seq<Action>)
    requires Shaped(s) && i < CONNECTIONS && t in s.clients && s.clients[t] == Scan(i) && FirstFree(s.words, i, d)
    ensures |run| == d + 1 <= CONNECTIONS && (forall a :: a in run ==> a == TryTake(t)) && Runs(s, run)
    ensures var j := Around(i, d);
            After(s, run) == s.(words := s.words[j := 1], clients := s.clients[t := Has(s.handles[j])])
    decreases d
  {
    hide Next, Enabled, FirstFree, Around;
    ScanStep(s, t, i);
    var n, j := Next(s, TryTake(t)), Around(i, d);
    if d > 0 {
      var next := if i + 1 == CONNECTIONS then 0 else i + 1;
      NextAround(s.words, i, d, next);
      run := ScanTakesFirstFree(n, t, next, d - 1);
      assert s.clients[t := Scan(next)][t := Has(s.handles[j])] == s.clients[t := Has(s.handles[j])];
    } else {
      NowFree(s.words, i);
      run := [];
    }
    RunOn(s, TryTake(t), run);
    run := [TryTake(t)] + run;
  }

  lemma NowFree(words: seq<nat>, i: nat)
    requires |words| == CONNECTIONS && i < CONNECTIONS && FirstFree(words, i, 0)
    ensures words[i] == 0 && Around(i, 0) == i
  {
  }

  lemma NextAround(words: seq<nat>, i: nat, d: nat, next: nat)
    requires |words| == CONNECTIONS && i < CONNECTIONS && d > 0 && FirstFree(words, i, d)
    requires next == if i + 1 == CONNECTIONS then 0 else i + 1
    ensures words[i] != 0 && FirstFree(words, next, d - 1) && Around(next, d - 1) == Around(i, d) && d < CONNECTIONS
  {
    assert words[Around(i, 0)] != 0;
    forall k | 0 <= k < d - 1 ensures words[Around(next, k)] != 0 {
      assert Around(next, k) == Around(i, k + 1);
    }
  }

  /** As long as an event is signalled, a client that scans gets a connection by four tries of its own at most. */
  lemma ScanEndsInFour(s: Pool, run: seq<Action>, t: Tid) returns (more: seq<Action>, i: nat, d: nat)
    requires Created(s) && Runs(s, run) && t in After(s, run).clients && After(s, run).clients[t].Scan?
    requires 0 in After(s, run).words
    ensures After(s, run).clients[t] == Scan(i) && i < CONNECTIONS && FirstFree(After(s, run).words, i, d)
    ensures |more| <= 4 && (forall a :: a in more ==> a == TryTake(t)) && Runs(After(s, run), more)
    ensures var n := After(After(s, run), more); t in n.clients && n.clients[t] == Has(s.handles[Around(i, d)])
  {
    RunKeepsHandles(s, run);
    var n := After(s, run);
    i := n.clients[t].i;
    d := SomeIsFirst(n.words, i);
    more := ScanTakesFirstFree(n, t, i, d);
  }

  lemma {:induction false} RunKeepsHandles(s: Pool, run: seq<Action>)
    requires Shaped(s) && Runs(s, run)
    ensures After(s, run).handles == s.handles
    decreases |run|
  {
    if run != [] {
      assert Next(s, run[0]).handles == s.handles;
      RunKeepsHandles(Next(s, run[0]), run[1..]);
    }
  }

  // ---------------------------------------------------------------- what the drain achieves

  /** The connections closed are those whose turn is over. */
  ghost predicate ClosedInOrder(s: Pool) {
    && |s.handles| == CONNECTIONS
    && forall h :: h in s.closed <==>
                   exists i :: 0 <= i < CONNECTIONS && s.handles[i] == h
                               && (s.closer.Done? || ((s.closer.Draining? || s.closer.Drained?) && i < s.closer.i))
  }

  lemma StepKeepsClosedInOrder(s: Pool, a: Action)
    requires Shaped(s) && ClosedInOrder(s) && Enabled(s, a)
    ensures ClosedInOrder(Next(s, a))
  {
    var n := Next(s, a);
    if a.CloseNext? {
      forall h
        ensures h in n.closed <==>
                exists i :: 0 <= i < CONNECTIONS && n.handles[i] == h
                            && (n.closer.Done? || ((n.closer.Draining? || n.closer.Drained?) && i < n.closer.i))
      {
        if h == s.handles[s.closer.i] { assert n.handles[s.closer.i] == h; }
      }
    }
  }

  lemma {:induction false} RunKeepsClosedInOrder(s: Pool, run: seq<Action>)
    requires Shaped(s) && ClosedInOrder(s) && Runs(s, run)
    ensures ClosedInOrder(After(s, run))
    decreases |run|
  {
    hide Next, Enabled, ClosedInOrder;
    if run != [] {
      StepKeepsClosedInOrder(s, run[0]);
      RunKeepsClosedInOrder(Next(s, run[0]), run[1..]);
    }
  }

  /** A closer that is done has closed every connection, and before that only those before its own place. */
  lemma DoneHasClosedAll(s: Pool, run: seq<Action>)
    requires Created(s) && Runs(s, run)
    ensures var n := After(s, run);
            && (n.closer.Done? ==> n.closed == set h | h in n.handles)
            && (n.closer.Open? ==> n.closed == {})
  {
    RunKeepsClosedInOrder(s, run);
    var n := After(s, run);
    if n.closer.Done? {
      forall h | h in n.handles ensures h in n.closed {
        var i :| 0 <= i < |n.handles| && n.handles[i] == h;
      }
    }
  }

  /** Once every connection is returned, the drain gets to its end by two steps for each connection left. */
  lemma DrainEnds(s: Pool, run: seq<Action>) returns (more: seq<Action>)
    requires Created(s) && Runs(s, run) && Heeded(run) && After(s, run).closer.Draining?
    requires var n := After(s, run); forall t :: t in n.clients ==> n.clients[t].Out?
    ensures |more| == 2 * (CONNECTIONS - After(s, run).closer.i) && Runs(After(s, run), more)
    ensures After(After(s, run), more).closer.Done?
  {
    CreatedInv(s);
    RunKeepsInv(s, run);
    more := DrainsOn(After(s, run));
  }

  lemma {:induction false} DrainsOn(n: Pool) returns (more: seq<Action>)
    requires Inv(n) && n.closer.Draining? && forall t :: t in n.clients ==> n.clients[t].Out?
    ensures |more| == 2 * (CONNECTIONS - n.closer.i) && Runs(n, more) && After(n, more).closer.Done?
    ensures Heeded(more)
    decreases CONNECTIONS - n.closer.i
  {
    var i := n.closer.i;
    assert Accounted(n, i) && forall t :: !Reserves(n, t, i);
    var m := Next(n, DrainTry);
    var k := Next(m, CloseNext);
    StepKeepsInvIff(n, DrainTry);
    StepKeepsInvIff(m, CloseNext);
    hide Inv, Accounted, Known;
    if i + 1 < CONNECTIONS { more := DrainsOn(k); } else { more := []; }
    RunOn(m, CloseNext, more);
    RunOn(n, DrainTry, [CloseNext] + more);
    more := [DrainTry] + ([CloseNext] + more);
  }

  lemma RunOn(s: Pool, a: Action, run: seq<Action>)
    requires Shaped(s) && Enabled(s, a) && Runs(Next(s, a), run)
    ensures Runs(s, [a] + run) && After(s, [a] + run) == After(Next(s, a), run)
  {
    hide Enabled, Next;
    assert ([a] + run)[1..] == run;
  }

  // ---------------------------------------------------------------- closing

  /** Closing may begin while connections are in use; the drain stays where it is until they are returned. */
  lemma DrainWaitsForHolder(s: Pool, run: seq<Action>, t: Tid, i: nat)
    requires Created(s) && Runs(s, run) && Heeded(run) && i < CONNECTIONS && Reserves(After(s, run), t, i)
    ensures var n := After(s, run);
            && (n.closer == Draining(i) ==> Next(n, DrainTry) == n)
            && (n.closer.Open? && (forall u :: u in n.clients ==> !Waiting(n.clients[u])) ==>
                  Enabled(n, Close) && Next(n, Close) == n.(closer := Draining(0)))
  {
    CreatedInv(s);
    RunKeepsInv(s, run);
    assert Accounted(After(s, run), i);
  }

  /** The clients that have or wait for a connection. */
  function Busy(s: Pool): set<Tid> { set t | t in s.clients && !s.clients[t].Out? }

  /** Number of steps to the end of a return. */
  function ToReturn(c: Client): nat { if c.Giving? && c.i <= CONNECTIONS then CONNECTIONS - c.i else CONNECTIONS + 1 }

  /** A client with a connection can return it at any time; nobody else is involved. */
  lemma {:induction false} Finishes(n: Pool, t: Tid) returns (more: seq<Action>)
    requires Inv(n) && t in n.clients && (n.clients[t].Has? || n.clients[t].Giving?)
    ensures Runs(n, more) && Heeded(more) && Inv(After(n, more))
    ensures After(n, more).clients == n.clients[t := Out] && After(n, more).closer == n.closer
    decreases ToReturn(n.clients[t])
  {
    assert Known(n, n.clients[t]);
    var a := if n.clients[t].Has? then Return(t) else Compare(t);
    StepKeepsInvIff(n, a);
    var m := Next(n, a);
    assert m.clients == n.clients[t := m.clients[t]];
    hide Inv, Known;
    if m.clients[t].Out? {
      more := [];
    } else {
      more := Finishes(m, t);
      assert m.clients[t := Out] == n.clients[t := Out];
    }
    RunOn(n, a, more);
    more := [a] + more;
  }

  /** Some client that is not out can go on until it is. */
  lemma OneLeaves(n: Pool) returns (more: seq<Action>, t: Tid)
    requires Inv(n) && Busy(n) != {}
    ensures Runs(n, more) && Heeded(more) && Inv(After(n, more)) && t in Busy(n)
    ensures After(n, more).clients == n.clients[t := Out] && After(n, more).closer == n.closer
  {
    if u :| u in n.clients && (n.clients[u].Has? || n.clients[u].Giving?) {
      t := u;
      more := Finishes(n, t);
    } else {
      t :| t in Busy(n);
      var a, i := TryTake(t), if n.clients[t].Scan? then n.clients[t].i else 0;
      assert Waiting(n.clients[t]) && n.closer.Open? && Accounted(n, i);
      assert forall u :: !Reserves(n, u, i);
      StepKeepsInvIff(n, a);
      var m := Next(n, a);
      assert m.clients == n.clients[t := Has(n.handles[i])];
      hide Inv, Accounted, Next, Enabled;
      more := Finishes(m, t);
      assert m.clients[t := Out] == n.clients[t := Out];
      RunOn(n, a, more);
      more := [a] + more;
    }
  }

  lemma {:induction false} EveryoneLeaves(n: Pool) returns (more: seq<Action>)
    requires Inv(n)
    ensures Runs(n, more) && Heeded(more) && Inv(After(n, more)) && After(n, more).closer == n.closer
    ensures Busy(After(n, more)) == {}
    decreases |Busy(n)|
  {
    if Busy(n) == {} {
      more := [];
    } else {
      var first, t := OneLeaves(n);
      var m := After(n, first);
      assert Busy(m) == Busy(n) - {t};
      hide Inv, Busy;
      var rest := EveryoneLeaves(m);
      RunsOn(n, first, rest);
      more := first + rest;
    }
  }

  lemma {:induction false} RunsOn(s: Pool, run: seq<Action>, more: seq<Action>)
    requires Shaped(s) && Runs(s, run) && Runs(After(s, run), more)
    ensures Runs(s, run + more) && After(s, run + more) == After(After(s, run), more)
    decreases |run|
  {
    hide Enabled, Next;
    if run == [] {
      assert run + more == more;
    } else {
      assert (run + more)[0] == run[0] && (run + more)[1..] == run[1..] + more;
      RunsOn(Next(s, run[0]), run[1..], more);
    }
  }

  /** With nobody about, the closer can go on to its end. */
  lemma Closes(n: Pool) returns (more: seq<Action>)
    requires Inv(n) && Busy(n) == {}
    ensures Runs(n, more) && Heeded(more) && After(n, more).closer.Done?
  {
    forall t | t in n.clients ensures n.clients[t].Out? { assert t !in Busy(n); }
    match n.closer
    case Open =>
      StepKeepsInvIff(n, Close);
      var rest := DrainsOn(Next(n, Close));
      RunOn(n, Close, rest);
      more := [Close] + rest;
    case Draining(_) => more := DrainsOn(n);
    case Drained(i) =>
      StepKeepsInvIff(n, CloseNext);
      var rest := [];
      if i + 1 < CONNECTIONS { rest := DrainsOn(Next(n, CloseNext)); }
      RunOn(n, CloseNext, rest);
      more := [CloseNext] + rest;
    case Done => more := [];
  }

  /**
   From every reachable state the pool can be closed: clients get what they wait for, return it, and it is drained.
   */
  lemma PoolCanBeClosed(s: Pool, run: seq<Action>) returns (more: seq<Action>)
    requires Created(s) && Runs(s, run) && Heeded(run)
    ensures Runs(After(s, run), more) && Heeded(more) && After(After(s, run), more).closer.Done?
  {
    CreatedInv(s);
    RunKeepsInv(s, run);
    var n := After(s, run);
    var first := EveryoneLeaves(n);
    var rest := Closes(After(n, first));
    RunsOn(n, first, rest);
    more := first + rest;
  }
}
