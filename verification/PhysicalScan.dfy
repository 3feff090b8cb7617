/**
 FcScanPhysmem of vmm/fc.c: physical memory is read into two buffers in turn by a work item while the main loop
 hands the buffer read before to the plugins. Main loop and work items interleave in any order.
 */
module PhysicalScan {

  const CHUNK_SIZE: nat := 0x100_0000

  /** The number of turns the main loop makes. */
  function Chunks(paMax: nat): nat { (paMax + CHUNK_SIZE - 1) / CHUNK_SIZE }

  /** The loop test: turn `k` is made exactly while `paBase` is below the end of memory. */
  lemma TurnsOfLoop(paMax: nat, k: nat)
    ensures k * 0x0100_0000 < paMax <==> k < Chunks(paMax)
  {
    var n := Chunks(paMax);
    assert (n - 1) * CHUNK_SIZE < paMax || n == 0;
    assert paMax <= n * CHUNK_SIZE;
  }

  /** A buffer: the chunk it was last scheduled for, whether the work item is still to run, and what was read. */
  datatype Slot = Slot(chunk: nat, busy: bool, content: nat, valid: bool)

  datatype Pc = Head | Wait | Ingest | TailWait | TailIngest | Finished

  datatype Scan = Scan(i: nat, pc: Pc, slots: seq<Slot>, ingested: seq<nat>)

  datatype Action = Main | ReadDone(k: nat)

  predicate Shaped(s: Scan) { |s.slots| == 2 }

  /** The slot the main loop waits for: the one scheduled a turn earlier. */
  function Previous(s: Scan): Slot
    requires Shaped(s) && s.i > 0
  {
    s.slots[(s.i - 1) % 2]
  }

  predicate Enabled(s: Scan, a: Action)
    requires Shaped(s)
  {
    match a
    case Main =>
      !s.pc.Finished? && ((s.pc.Wait? || s.pc.TailWait?) ==> s.i > 0 && !Previous(s).busy)
    case ReadDone(k) => k < 2 && s.slots[k].busy
  }

  /** `n` chunks in all; `ok` tells for which the read succeeds. */
  function Next(s: Scan, a: Action, n: nat, ok: nat -> bool): (s': Scan)
    requires Shaped(s) && Enabled(s, a)
    ensures Shaped(s')
  {
    match a
    case ReadDone(k) =>
      var slot := s.slots[k];
      s.(slots := s.slots[k := slot.(busy := false, content := slot.chunk, valid := ok(slot.chunk))])
    case Main =>
      match s.pc
      case Head =>
        if s.i < n then
          var i := s.i + 1;
          s.(i := i, slots := s.slots[i % 2 := s.slots[i % 2].(chunk := i, busy := true)],
             pc := if i == 1 then Head else Wait)
        else
          s.(pc := if s.i > 0 then TailWait else Finished)
      case Wait => s.(pc := Ingest)
      case Ingest => Handed(s).(pc := Head)
      case TailWait => s.(pc := TailIngest)
      case TailIngest => Handed(s).(pc := Finished)
      case Finished => s
  }

  function Handed(s: Scan): Scan
    requires Shaped(s)
  {
    if s.i > 0 && Previous(s).valid then s.(ingested := s.ingested + [Previous(s).content]) else s
  }

  function Started(): Scan { Scan(0, Head, [Slot(0, false, 0, false), Slot(0, false, 0, false)], []) }

  predicate Runs(s: Scan, run: seq<Action>, n: nat, ok: nat -> bool)
    requires Shaped(s)
    decreases |run|
  {
    run == [] || (Enabled(s, run[0]) && Runs(Next(s, run[0], n, ok), run[1..], n, ok))
  }

  function After(s: Scan, run: seq<Action>, n: nat, ok: nat -> bool): (s': Scan)
    requires Shaped(s) && Runs(s, run, n, ok)
    ensures Shaped(s')
    decreases |run|
  {
    if run == [] then s else After(Next(s, run[0], n, ok), run[1..], n, ok)
  }

  /** The chunks 1 .. k that could be read, in order. */
  function Readable(k: nat, ok: nat -> bool): seq<nat> {
    if k == 0 then [] else Readable(k - 1, ok) + if ok(k) then [k] else []
  }

  // ---------------------------------------------------------------- invariant

  /** The slot holds, or will hold once read, chunk `k`; chunk 0 is a slot never used. */
  predicate Carries(slot: Slot, k: nat, ok: nat -> bool) {
    && slot.chunk == k
    && (k == 0 ==> !slot.busy && !slot.valid)
    && (k > 0 && !slot.busy ==> slot.content == k && slot.valid == ok(k))
  }

  predicate Inv(s: Scan, n: nat, ok: nat -> bool) {
    && Shaped(s) && s.i <= n
    && Carries(s.slots[s.i % 2], s.i, ok)
    && Carries(s.slots[(s.i + 1) % 2], if s.i > 0 then s.i - 1 else 0, ok)
    && match s.pc
       case Head => !s.slots[(s.i + 1) % 2].busy && s.ingested == Readable(if s.i > 0 then s.i - 1 else 0, ok)
       case Wait => s.i >= 2 && s.ingested == Readable(s.i - 2, ok)
       case Ingest => s.i >= 2 && !Previous(s).busy && s.ingested == Readable(s.i - 2, ok)
       case TailWait => s.i == n > 0 && !Previous(s).busy && s.ingested == Readable(n - 1, ok)
       case TailIngest => s.i == n > 0 && !Previous(s).busy && s.ingested == Readable(n - 1, ok)
       case Finished => s.i == n && s.ingested == Outcome(n, ok)
  }

  /** What the plugins have been handed when the scan ends. */
  function Outcome(n: nat, ok: nat -> bool): seq<nat> {
    if n == 0 then [] else Readable(n - 1, ok) + if n > 1 && ok(n - 1) then [n - 1] else []
  }

  lemma OtherSlot(i: nat)
    ensures i > 0 ==> (i - 1) % 2 == (i + 1) % 2
    ensures (i + 2) % 2 == i % 2 && i % 2 != (i + 1) % 2
  {
  }

  lemma StepKeepsInv(s: Scan, a: Action, n: nat, ok: nat -> bool)
    requires Inv(s, n, ok) && Enabled(s, a)
    ensures Inv(Next(s, a, n, ok), n, ok)
  {
    hide Readable;
    OtherSlot(s.i);
    OtherSlot(s.i + 1);
    if a.Main? && (s.pc.Ingest? || s.pc.TailIngest? || s.pc.Head?) {
      ReadableGrows(n, s.i, ok);
    }
  }

  lemma ReadableGrows(n: nat, i: nat, ok: nat -> bool)
    ensures i > 1 ==> Readable(i - 1, ok) == Readable(i - 2, ok) + if ok(i - 1) then [i - 1] else []
    ensures Readable(0, ok) == []
  {
  }

  lemma {:induction false} RunKeepsInv(s: Scan, run: seq<Action>, n: nat, ok: nat -> bool)
    requires Inv(s, n, ok) && Runs(s, run, n, ok)
    ensures Inv(After(s, run, n, ok), n, ok)
    decreases |run|
  {
    hide Next, Enabled;
    if run != [] {
      StepKeepsInv(s, run[0], n, ok);
      RunKeepsInv(Next(s, run[0], n, ok), run[1..], n, ok);
    }
  }

  lemma StartedInv(n: nat, ok: nat -> bool)
    ensures Inv(Started(), n, ok)
  {
  }

  // ---------------------------------------------------------------- whole runs

  /** A read is never scheduled into a buffer that another read still fills or that is being handed over. */
  lemma SchedulesIntoIdleBuffer(run: seq<Action>, n: nat, ok: nat -> bool)
    requires Runs(Started(), run, n, ok)
    ensures var s := After(Started(), run, n, ok);
            s.pc.Head? && s.i < n ==> !s.slots[(s.i + 1) % 2].busy
    ensures var s := After(Started(), run, n, ok);
            s.pc.Ingest? || s.pc.TailIngest? ==> s.i > 0 && !Previous(s).busy
  {
    StartedInv(n, ok);
    RunKeepsInv(Started(), run, n, ok);
  }

  /** In the loop the plugins get every readable chunk but the last one, once and in order. */
  lemma LoopHandsOverInOrder(run: seq<Action>, n: nat, ok: nat -> bool)
    requires Runs(Started(), run, n, ok) && After(Started(), run, n, ok).pc.TailWait?
    ensures n > 0 && After(Started(), run, n, ok).ingested == Readable(n - 1, ok)
  {
    StartedInv(n, ok);
    RunKeepsInv(Started(), run, n, ok);
  }

  lemma {:induction false} ReadableMembers(k: nat, ok: nat -> bool, c: nat)
    ensures c in Readable(k, ok) <==> 1 <= c <= k && ok(c)
  {
    if k > 0 { ReadableMembers(k - 1, ok, c); }
  }

  lemma OutcomeMembers(n: nat, ok: nat -> bool, c: nat)
    ensures c in Outcome(n, ok) <==> 1 <= c < n && ok(c)
  {
    if n > 0 {
      ReadableMembers(n - 1, ok, c);
      if n > 1 { ReadableMembers(n - 1, ok, n - 1); }
    }
  }

  function Times(s: seq<nat>, c: nat): nat { multiset(s)[c] }

  lemma {:induction false} ReadableTimes(k: nat, ok: nat -> bool, c: nat)
    ensures Times(Readable(k, ok), c) == if 1 <= c <= k && ok(c) then 1 else 0
  {
    if k > 0 {
      ReadableTimes(k - 1, ok, c);
      OneMore(Readable(k - 1, ok), k, c);
    }
  }

  lemma OneMore(s: seq<nat>, x: nat, c: nat)
    ensures Times(s + [x], c) == Times(s, c) + if x == c then 1 else 0
    ensures s + [] == s
  {
  }

  lemma OutcomeTimes(n: nat, ok: nat -> bool, c: nat)
    requires 1 <= c < n && ok(c)
    ensures Times(Outcome(n, ok), c) == if c == n - 1 then 2 else 1
  {
    ReadableTimes(n - 1, ok, c);
    OneMore(Readable(n - 1, ok), n - 1, c);
    hide Readable, Times;
  }

  /**
   The tail goes back to the buffer already handed over: of two or more chunks the last but one is handed over
   twice, and the last one never. So all readable chunks are handed over exactly when the last one is not readable.
   */
  lemma LastChunkIsLost(run: seq<Action>, n: nat, ok: nat -> bool)
    requires Runs(Started(), run, n, ok) && After(Started(), run, n, ok).pc.Finished?
    ensures var got := After(Started(), run, n, ok).ingested;
            && got == Outcome(n, ok) && n !in got
            && ((forall c :: 1 <= c <= n && ok(c) ==> c in got) <==> n == 0 || !ok(n))
            && (n > 1 && ok(n - 1) ==> Times(got, n - 1) == 2)
            && forall c: nat :: 1 <= c < n - 1 && ok(c) ==> Times(got, c) == 1
  {
    StartedInv(n, ok);
    RunKeepsInv(Started(), run, n, ok);
    var got := After(Started(), run, n, ok).ingested;
    hide After, Runs, Inv, Outcome;
    forall c: nat ensures c in got <==> 1 <= c < n && ok(c) { OutcomeMembers(n, ok, c); }
    forall c: nat | 1 <= c < n && ok(c) ensures Times(got, c) == if c == n - 1 then 2 else 1 { OutcomeTimes(n, ok, c); }
    if n > 0 && ok(n) { assert n !in got; }
  }

  // ---------------------------------------------------------------- no standstill

  /** As long as the scan has not ended, the main loop or a work item can go on. */
  lemma NeverStuck(run: seq<Action>, n: nat, ok: nat -> bool)
    requires Runs(Started(), run, n, ok) && !After(Started(), run, n, ok).pc.Finished?
    ensures exists a :: Enabled(After(Started(), run, n, ok), a)
  {
    StartedInv(n, ok);
    RunKeepsInv(Started(), run, n, ok);
    var a := SomeStep(After(Started(), run, n, ok), n, ok);
  }

  lemma SomeStep(s: Scan, n: nat, ok: nat -> bool) returns (a: Action)
    requires Inv(s, n, ok) && !s.pc.Finished?
    ensures Enabled(s, a)
  {
    a := if Enabled(s, Main) then Main else ReadDone((s.i - 1) % 2);
  }

  function Busy(slot: Slot): nat { if slot.busy then 1 else 0 }

  /** The number of steps still to be made. */
  function Rank(s: Scan, n: nat): nat
    requires Shaped(s) && s.i <= n
  {
    4 * (n - s.i) + Busy(s.slots[0]) + Busy(s.slots[1])
    + match s.pc
      case Head => if s.i == 0 then 1 else 3
      case Wait => 5
      case Ingest => 4
      case TailWait => 2
      case TailIngest => 1
      case Finished => 0
  }

  lemma StepLowersRank(s: Scan, a: Action, n: nat, ok: nat -> bool)
    requires Inv(s, n, ok) && Enabled(s, a)
    ensures Next(s, a, n, ok).i <= n && Rank(Next(s, a, n, ok), n) + 1 == Rank(s, n)
  {
    hide Readable, Outcome;
    OtherSlot(s.i);
  }

  lemma {:induction false} RunLowersRank(s: Scan, run: seq<Action>, n: nat, ok: nat -> bool)
    requires Inv(s, n, ok) && Runs(s, run, n, ok)
    ensures After(s, run, n, ok).i <= n && |run| + Rank(After(s, run, n, ok), n) == Rank(s, n)
    decreases |run|
  {
    hide Next, Enabled, Rank, Inv;
    InvBounds(s, n, ok);
    if run != [] {
      StepKeepsInv(s, run[0], n, ok);
      StepLowersRank(s, run[0], n, ok);
      RunLowersRank(Next(s, run[0], n, ok), run[1..], n, ok);
    }
  }

  lemma InvBounds(s: Scan, n: nat, ok: nat -> bool)
    requires Inv(s, n, ok)
    ensures Shaped(s) && s.i <= n
  {
  }

  lemma {:induction false} Finishes(s: Scan, n: nat, ok: nat -> bool) returns (run: seq<Action>)
    requires Inv(s, n, ok)
    ensures Runs(s, run, n, ok) && After(s, run, n, ok).pc.Finished?
    decreases Rank(s, n)
  {
    hide Next, Enabled, Rank, Inv;
    InvBounds(s, n, ok);
    if s.pc.Finished? {
      run := [];
    } else {
      var a := SomeStep(s, n, ok);
      StepKeepsInv(s, a, n, ok);
      StepLowersRank(s, a, n, ok);
      var rest := Finishes(Next(s, a, n, ok), n, ok);
      run := [a] + rest;
    }
  }

  lemma {:induction false} RunsOn(s: Scan, run: seq<Action>, more: seq<Action>, n: nat, ok: nat -> bool)
    requires Shaped(s) && Runs(s, run, n, ok) && Runs(After(s, run, n, ok), more, n, ok)
    ensures Runs(s, run + more, n, ok) && After(s, run + more, n, ok) == After(After(s, run, n, ok), more, n, ok)
    decreases |run|
  {
    hide Next, Enabled;
    if run == [] {
      assert run + more == more;
    } else {
      assert (run + more)[0] == run[0] && (run + more)[1..] == run[1..] + more;
      RunsOn(Next(s, run[0], n, ok), run[1..], more, n, ok);
    }
  }

  /**
   Every run can be continued to the end of the scan, and none has more than 4n + 1 steps, so it gets there
   whatever the order of the steps.
   */
  lemma EveryRunEnds(run: seq<Action>, n: nat, ok: nat -> bool) returns (more: seq<Action>)
    requires Runs(Started(), run, n, ok)
    ensures |run| <= 4 * n + 1
    ensures Runs(Started(), run + more, n, ok) && After(Started(), run + more, n, ok).pc.Finished?
  {
    StartedInv(n, ok);
    RunKeepsInv(Started(), run, n, ok);
    RunLowersRank(Started(), run, n, ok);
    more := Finishes(After(Started(), run, n, ok), n, ok);
    RunsOn(Started(), run, more, n, ok);
  }
}
