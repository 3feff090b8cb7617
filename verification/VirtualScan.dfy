/**
 The virtual memory and object scan of vmm/fc.c: any number of workers pop items off one list, split each into
 chunks and count the bytes of every chunk as zero or as ingested.
 */
module VirtualScan {

  const MAX_CHUNK: nat := 0x0200_0000

  /** A range of memory, or an object, which is handled in one piece. */
  datatype Item = Item(isObject: bool, va: nat, cb: nat)

  datatype Chunk = Chunk(va: nat, cb: nat)

  function ChunkSize(cb: nat): nat { if cb < MAX_CHUNK then cb else MAX_CHUNK }

  // ---------------------------------------------------------------- splitting one range

  /** The chunks follow each other from `va` on, none over 32 MB, none empty. */
  predicate Tiles(chunks: seq<Chunk>, va: nat, cb: nat) {
    if |chunks| == 0 then cb == 0
    else
      var last := chunks[|chunks| - 1];
      && 0 < last.cb <= 0x0200_0000 && last.cb <= cb && last.va + last.cb == va + cb
      && Tiles(chunks[..|chunks| - 1], va, cb - last.cb)
  }

  predicate Full(chunks: seq<Chunk>) { forall c :: c in chunks ==> c.cb == 0x0200_0000 }

  predicate Contains(c: Chunk, a: nat) { c.va <= a < c.va + c.cb }

  /** Chunks that tile a range contain its bytes and no others, each of them once. */
  lemma {:induction false} TilesCover(chunks: seq<Chunk>, va: nat, cb: nat, a: nat)
    requires Tiles(chunks, va, cb)
    ensures (exists i :: 0 <= i < |chunks| && Contains(chunks[i], a)) <==> va <= a < va + cb
    ensures forall i, j :: 0 <= i < j < |chunks| ==> !(Contains(chunks[i], a) && Contains(chunks[j], a))
  {
    if |chunks| > 0 {
      var n := |chunks| - 1;
      var last, front := chunks[n], chunks[..n];
      TilesCover(front, va, cb - last.cb, a);
      if i :| 0 <= i < |front| && Contains(front[i], a) { assert chunks[i] == front[i]; }
      forall i, j | 0 <= i < j < |chunks| ensures !(Contains(chunks[i], a) && Contains(chunks[j], a)) {
        assert chunks[i] == front[i];
        if j < n { assert chunks[j] == front[j]; }
      }
    }
  }

  /** The bytes of the chunks that `zero` judges as `v`. */
  function Judged(chunks: seq<Chunk>, zero: Chunk -> bool, v: bool): nat {
    if |chunks| == 0 then 0
    else
      var n := |chunks| - 1;
      Judged(chunks[..n], zero, v) + if zero(chunks[n]) == v then chunks[n].cb else 0
  }

  lemma JudgedGrows(chunks: seq<Chunk>, c: Chunk, zero: Chunk -> bool, v: bool)
    ensures Judged(chunks + [c], zero, v) == Judged(chunks, zero, v) + if zero(c) == v then c.cb else 0
  {
    assert (chunks + [c])[..|chunks|] == chunks;
  }

  /** The item a worker has popped; va and cb are overwritten with each chunk in turn. */
  class Popped {
    var va: nat
    var cb: nat

    constructor (va: nat, cb: nat)
      ensures this.va == va && this.cb == cb
    {
      this.va, this.cb := va, cb;
    }

    /** `zero` tells which chunks turn out to be empty or unreadable. */
    method ScanVirtmem(zero: Chunk -> bool) returns (chunks: seq<Chunk>, cbZero: nat, cbIngest: nat)
      modifies this
      ensures Tiles(chunks, old(va), old(cb)) && (|chunks| > 0 ==> Full(chunks[..|chunks| - 1]))
      ensures cbZero + cbIngest == old(cb) && cbZero == Judged(chunks, zero, true)
              && cbIngest == Judged(chunks, zero, false)
    {
      hide Tiles, Full, Judged;
      ghost var from, size := va, cb;
      var at: nat, left: nat := va, cb;
      chunks, cbZero, cbIngest := [], 0, 0;
      NoTiles(at);
      NothingJudged(zero);
      while left > 0
        invariant left <= size && at + left == from + size && cbZero + cbIngest + left == size
        invariant Tiles(chunks, from, size - left)
        invariant cbZero == Judged(chunks, zero, true) && cbIngest == Judged(chunks, zero, false)
        invariant if left > 0 then Full(chunks) else |chunks| > 0 ==> Full(chunks[..|chunks| - 1])
        decreases left
      {
        var cbRead := ChunkSize(left);
        va := at;
        cb := cbRead;
        var c := Chunk(va, cb);
        if zero(c) { cbZero := cbZero + cb; } else { cbIngest := cbIngest + cb; }
        OneMoreTile(chunks, c, from, size - left);
        JudgedGrows(chunks, c, zero, true);
        JudgedGrows(chunks, c, zero, false);
        chunks := chunks + [c];
        at := at + cbRead;
        left := left - cbRead;
      }
    }
  }

  lemma NothingJudged(zero: Chunk -> bool)
    ensures Judged([], zero, true) == Judged([], zero, false) == 0
  {
  }

  lemma NoTiles(va: nat)
    ensures Tiles([], va, 0) && Full([])
  {
  }

  lemma OneMoreTile(chunks: seq<Chunk>, c: Chunk, va: nat, cb: nat)
    requires Tiles(chunks, va, cb) && Full(chunks) && c.va == va + cb && 0 < c.cb <= MAX_CHUNK
    ensures Tiles(chunks + [c], va, cb + c.cb) && Full((chunks + [c])[..|chunks|])
    ensures c.cb == MAX_CHUNK ==> Full(chunks + [c])
  {
    assert (chunks + [c])[..|chunks|] == chunks;
  }

  // ---------------------------------------------------------------- many workers

  /** What is counted at once of an item in hand. */
  function Portion(item: Item): nat { if item.isObject then item.cb else ChunkSize(item.cb) }

  /** `Failed`: the worker got no buffer and left at once. `Left`: it found the list empty. */
  datatype Worker = Waiting | Idle | Busy(item: Item) | Left | Failed

  /** The scan list, the workers and the shared counters, which are added to atomically. */
  datatype Scan = Scan(queue: seq<Item>, workers: seq<Worker>, cbZero: nat, cbIngest: nat)

  datatype Action =
    | Start(t: nat, heapOk: bool)    // allocates the buffer
    | Pop(t: nat, k: nat)            // an atomic pop of any item
    | Count(t: nat, zero: bool)      // one chunk, or a whole object
    | Leave(t: nat)                  // the list is empty

  predicate Enabled(s: Scan, a: Action) {
    && a.t < |s.workers|
    && match a
       case Start(t, _) => s.workers[t].Waiting?
       case Pop(t, k) => s.workers[t].Idle? && k < |s.queue|
       case Count(t, _) => s.workers[t].Busy?
       case Leave(t) => s.workers[t].Idle? && s.queue == []
  }

  function Next(s: Scan, a: Action): Scan
    requires Enabled(s, a)
  {
    match a
    case Start(t, heapOk) => s.(workers := s.workers[t := if heapOk then Idle else Failed])
    case Pop(t, k) =>
      var rest := s.queue[..k] + s.queue[k + 1..];
      var worker := if s.queue[k].cb == 0 && !s.queue[k].isObject then Idle else Busy(s.queue[k]);
      s.(queue := rest, workers := s.workers[t := worker])
    case Count(t, zero) =>
      var item := s.workers[t].item;
      var n := Portion(item);
      var left := item.(va := item.va + n, cb := item.cb - n);
      var s' := s.(workers := s.workers[t := if left.cb == 0 then Idle else Busy(left)]);
      if zero then s'.(cbZero := s.cbZero + n) else s'.(cbIngest := s.cbIngest + n)
    case Leave(t) => s.(workers := s.workers[t := Left])
  }

  predicate Runs(s: Scan, run: seq<Action>)
    decreases |run|
  {
    run == [] || (Enabled(s, run[0]) && Runs(Next(s, run[0]), run[1..]))
  }

  function After(s: Scan, run: seq<Action>): Scan
    requires Runs(s, run)
    decreases |run|
  {
    if run == [] then s else After(Next(s, run[0]), run[1..])
  }

  function SumOf<T>(f: T -> nat, xs: seq<T>): nat { if |xs| == 0 then 0 else f(xs[0]) + SumOf(f, xs[1..]) }

  lemma {:induction false} SumSplit<T>(f: T -> nat, a: seq<T>, b: seq<T>)
    ensures SumOf(f, a + b) == SumOf(f, a) + SumOf(f, b)
  {
    if |a| == 0 {
      assert a + b == b;
    } else {
      assert (a + b)[1..] == a[1..] + b;
      SumSplit(f, a[1..], b);
    }
  }

  lemma SumCons<T>(f: T -> nat, x: T, rest: seq<T>)
    ensures SumOf(f, [x] + rest) == f(x) + SumOf(f, rest)
  {
    assert ([x] + rest)[1..] == rest;
  }

  lemma SumAround<T>(f: T -> nat, front: seq<T>, x: T, rest: seq<T>)
    ensures SumOf(f, front + ([x] + rest)) == SumOf(f, front + rest) + f(x)
  {
    SumCons(f, x, rest);
    hide SumOf;
    SumSplit(f, front, [x] + rest);
    SumSplit(f, front, rest);
  }

  lemma CutOut<T>(q: seq<T>, k: nat)
    requires k < |q|
    ensures q == q[..k] + ([q[k]] + q[k + 1..])
  {
  }

  lemma SumWithout<T>(f: T -> nat, q: seq<T>, k: nat)
    requires k < |q|
    ensures SumOf(f, q) == SumOf(f, q[..k] + q[k + 1..]) + f(q[k])
  {
    hide SumOf;
    CutOut(q, k);
    SumAround(f, q[..k], q[k], q[k + 1..]);
  }

  lemma {:induction false} SumChanges<T>(f: T -> nat, ws: seq<T>, t: nat, w: T)
    requires t < |ws|
    ensures SumOf(f, ws[t := w]) + f(ws[t]) == SumOf(f, ws) + f(w)
  {
    if t > 0 {
      assert ws[t := w][1..] == ws[1..][t - 1 := w];
      SumChanges(f, ws[1..], t - 1, w);
    } else {
      assert ws[t := w][1..] == ws[1..];
    }
  }

  function Size(item: Item): nat { item.cb }

  function Queued(q: seq<Item>): nat { SumOf(Size, q) }

  function InHand(w: Worker): nat { if w.Busy? then w.item.cb else 0 }

  function AllInHand(ws: seq<Worker>): nat { SumOf(InHand, ws) }

  /** Bytes counted, in hand and still queued. */
  function Bytes(s: Scan): nat { s.cbZero + s.cbIngest + AllInHand(s.workers) + Queued(s.queue) }

  lemma StepConserves(s: Scan, a: Action)
    requires Enabled(s, a)
    ensures Bytes(Next(s, a)) == Bytes(s)
  {
    SumChanges(InHand, s.workers, a.t, Next(s, a).workers[a.t]);
    if a.Pop? { SumWithout(Size, s.queue, a.k); }
  }

  lemma {:induction false} RunConserves(s: Scan, run: seq<Action>)
    requires Runs(s, run)
    ensures Bytes(After(s, run)) == Bytes(s)
    decreases |run|
  {
    hide Bytes, Next, Enabled;
    if run != [] {
      StepConserves(s, run[0]);
      RunConserves(Next(s, run[0]), run[1..]);
    }
  }

  lemma {:induction false} NothingInHand(ws: seq<Worker>)
    requires forall t :: 0 <= t < |ws| ==> !ws[t].Busy?
    ensures AllInHand(ws) == 0
  {
    if |ws| > 0 { NothingInHand(ws[1..]); }
  }

  // ---------------------------------------------------------------- the chunks of every item

  /** An item popped and the chunks counted for it so far. */
  datatype Job = Job(item: Item, chunks: seq<Chunk>)

  /** A record of the jobs of every worker, which the code does not keep. */
  type Books = seq<seq<Job>>

  function WithChunk(jobs: seq<Job>, c: Chunk): seq<Job> {
    if |jobs| == 0 then []
    else
      var n := |jobs| - 1;
      jobs[n := Job(jobs[n].item, jobs[n].chunks + [c])]
  }

  function Noted(s: Scan, a: Action, books: Books): (after: Books)
    requires Enabled(s, a) && |books| == |s.workers|
    ensures |after| == |books|
  {
    match a
    case Pop(t, k) => books[t := books[t] + [Job(s.queue[k], [])]]
    case Count(t, _) =>
      var item := s.workers[t].item;
      books[t := WithChunk(books[t], Chunk(item.va, Portion(item)))]
    case _ => books
  }

  function Recorded(s: Scan, run: seq<Action>, books: Books): (after: Books)
    requires Runs(s, run) && |books| == |s.workers|
    ensures |after| == |books|
    decreases |run|
  {
    if run == [] then books
    else
      var n := Next(s, run[0]);
      assert |n.workers| == |s.workers|;
      Recorded(n, run[1..], Noted(s, run[0], books))
  }

  /** An object is counted in one piece, a range in chunks that tile it, full ones first. */
  predicate Complete(job: Job) {
    if job.item.isObject then job.chunks == [Chunk(job.item.va, job.item.cb)]
    else Tiles(job.chunks, job.item.va, job.item.cb) && (|job.chunks| > 0 ==> Full(job.chunks[..|job.chunks| - 1]))
  }

  /** `left` is what is still to be counted. */
  predicate UnderWay(job: Job, left: Item) {
    && left.isObject == job.item.isObject
    && if left.isObject then job.chunks == [] && left == job.item
       else
         && 0 < left.cb <= job.item.cb && left.va + left.cb == job.item.va + job.item.cb
         && Tiles(job.chunks, job.item.va, job.item.cb - left.cb) && Full(job.chunks)
  }

  /** What a worker's record looks like: all jobs are complete, except that of a busy worker's item. */
  predicate InOrder(w: Worker, jobs: seq<Job>) {
    var n := if w.Busy? then |jobs| - 1 else |jobs|;
    && (w.Busy? ==> |jobs| > 0 && UnderWay(jobs[n], w.item))
    && forall i :: 0 <= i < n ==> Complete(jobs[i])
  }

  lemma CountedOnce(job: Job, left: Item)
    requires UnderWay(job, left)
    ensures var n := Portion(left); var job' := Job(job.item, job.chunks + [Chunk(left.va, n)]);
            && n <= left.cb
            && if n == left.cb then Complete(job') else UnderWay(job', left.(va := left.va + n, cb := left.cb - n))
  {
    hide Tiles, Full;
    if !left.isObject {
      NoTiles(left.va);
      OneMoreTile(job.chunks, Chunk(left.va, Portion(left)), job.item.va, job.item.cb - left.cb);
    }
  }

  lemma StepKeepsOrder(s: Scan, a: Action, books: Books, t: nat)
    requires Enabled(s, a) && |books| == |s.workers| && t < |books| && InOrder(s.workers[t], books[t])
    ensures InOrder(Next(s, a).workers[t], Noted(s, a, books)[t])
  {
    hide UnderWay, Complete;
    if a.t == t {
      if a.Pop? {
        FreshJob(s.queue[a.k]);
      } else if a.Count? {
        var jobs := books[t];
        CountedOnce(jobs[|jobs| - 1], s.workers[t].item);
      }
    }
  }

  lemma FreshJob(item: Item)
    ensures if item.cb == 0 && !item.isObject then Complete(Job(item, [])) else UnderWay(Job(item, []), item)
  {
  }

  function ItemsOf(jobs: seq<Job>): multiset<Item> {
    if |jobs| == 0 then multiset{} else ItemsOf(jobs[..|jobs| - 1]) + multiset{jobs[|jobs| - 1].item}
  }

  function AllItems(books: Books): multiset<Item> {
    if |books| == 0 then multiset{} else ItemsOf(books[0]) + AllItems(books[1..])
  }

  lemma {:induction false} BookChanges(books: Books, t: nat, jobs: seq<Job>)
    requires t < |books|
    ensures AllItems(books[t := jobs]) + ItemsOf(books[t]) == AllItems(books) + ItemsOf(jobs)
  {
    hide ItemsOf;
    if t > 0 {
      assert books[t := jobs][1..] == books[1..][t - 1 := jobs];
      BookChanges(books[1..], t - 1, jobs);
      var rest := books[1..];
      AddedInFront(ItemsOf(books[0]), AllItems(rest[t - 1 := jobs]), ItemsOf(books[t]), AllItems(rest), ItemsOf(jobs));
    } else {
      assert books[t := jobs][1..] == books[1..];
      AddedInFront(AllItems(books[1..]), ItemsOf(jobs), ItemsOf(books[0]), ItemsOf(books[0]), ItemsOf(jobs));
    }
  }

  lemma AddedInFront(front: multiset<Item>, a: multiset<Item>, b: multiset<Item>, c: multiset<Item>, d: multiset<Item>)
    requires a + b == c + d
    ensures (front + a) + b == (front + c) + d
  {
    assert (front + a) + b == front + (a + b) && (front + c) + d == front + (c + d);
  }

  lemma Passed(was: multiset<Item>, now: multiset<Item>, before: multiset<Item>, after: multiset<Item>,
               job: multiset<Item>, x: multiset<Item>)
    requires after + job == before + (job + x) && was == now + x
    ensures now + after == was + before
  {
    forall y: Item ensures (now + after)[y] == (was + before)[y] {
      assert (after + job)[y] == (before + (job + x))[y];
    }
  }

  lemma StepKeepsItems(s: Scan, a: Action, books: Books)
    requires Enabled(s, a) && |books| == |s.workers|
    ensures multiset(Next(s, a).queue) + AllItems(Noted(s, a, books)) == multiset(s.queue) + AllItems(books)
  {
    hide AllItems, ItemsOf;
    var n, noted := Next(s, a), Noted(s, a, books);
    var x := if a.Pop? then multiset{s.queue[a.k]} else multiset{};
    BookChanges(books, a.t, noted[a.t]);
    assert noted == books[a.t := noted[a.t]];
    assert ItemsOf(noted[a.t]) == ItemsOf(books[a.t]) + x by { ItemsNoted(s, a, books); }
    QueueLoses(s, a, n, x);
    Passed(multiset(s.queue), multiset(n.queue), AllItems(books), AllItems(noted), ItemsOf(books[a.t]), x);
  }

  lemma QueueLoses(s: Scan, a: Action, n: Scan, x: multiset<Item>)
    requires Enabled(s, a) && n == Next(s, a) && x == if a.Pop? then multiset{s.queue[a.k]} else multiset{}
    ensures multiset(s.queue) == multiset(n.queue) + x
  {
    if a.Pop? { assert s.queue == s.queue[..a.k] + [s.queue[a.k]] + s.queue[a.k + 1..]; }
  }

  lemma ItemsNoted(s: Scan, a: Action, books: Books)
    requires Enabled(s, a) && |books| == |s.workers|
    ensures ItemsOf(Noted(s, a, books)[a.t]) ==
            ItemsOf(books[a.t]) + if a.Pop? then multiset{s.queue[a.k]} else multiset{}
  {
    var was, now := books[a.t], Noted(s, a, books)[a.t];
    assert a.Pop? ==> now[..|now| - 1] == was;
    assert a.Count? && |now| > 0 ==> now[..|now| - 1] == was[..|was| - 1];
  }

  lemma {:induction false} RunKeepsBooks(s: Scan, run: seq<Action>, books: Books)
    requires Runs(s, run) && |books| == |s.workers| && forall t :: 0 <= t < |books| ==> InOrder(s.workers[t], books[t])
    ensures var n, after := After(s, run), Recorded(s, run, books);
            && |n.workers| == |after| && multiset(n.queue) + AllItems(after) == multiset(s.queue) + AllItems(books)
            && forall t :: 0 <= t < |after| ==> InOrder(n.workers[t], after[t])
    decreases |run|
  {
    if run != [] {
      var n, noted := Next(s, run[0]), Noted(s, run[0], books);
      assert |n.workers| == |s.workers|;
      forall t | 0 <= t < |noted| ensures InOrder(n.workers[t], noted[t]) { StepKeepsOrder(s, run[0], books, t); }
      StepKeepsItems(s, run[0], books);
      hide Noted, Next, Enabled, InOrder, AllItems;
      RunKeepsBooks(n, run[1..], noted);
    }
  }

  lemma {:induction false} NoJobs(workers: nat)
    ensures AllItems(seq(workers, _ => [])) == multiset{}
  {
    if workers > 0 {
      var books: Books, rest: Books := seq(workers, _ => []), seq(workers - 1, _ => []);
      assert books[1..] == rest;
      NoJobs(workers - 1);
    }
  }

  /**
   In every run the items popped and those still queued are the items queued at the start, each of them once; and
   the chunks of every item popped tile it, but for the items workers have in hand.
   */
  lemma ItemsAreTiled(queue: seq<Item>, workers: nat, run: seq<Action>)
    requires Runs(Scan(queue, seq(workers, _ => Waiting), 0, 0), run)
    ensures var s := Scan(queue, seq(workers, _ => Waiting), 0, 0);
            var n, books := After(s, run), Recorded(s, run, seq(workers, _ => []));
            && multiset(n.queue) + AllItems(books) == multiset(queue)
            && |books| == |n.workers|
            && forall t :: 0 <= t < |books| ==> InOrder(n.workers[t], books[t])
  {
    NoJobs(workers);
    RunKeepsBooks(Scan(queue, seq(workers, _ => Waiting), 0, 0), run, seq(workers, _ => []));
  }

  /** There is one way only to tile a range with full chunks first, so a worker counts the chunks of ScanVirtmem. */
  lemma {:induction false} TilingIsUnique(a: seq<Chunk>, b: seq<Chunk>, va: nat, cb: nat)
    requires Tiles(a, va, cb) && (|a| > 0 ==> Full(a[..|a| - 1])) && Tiles(b, va, cb)
             && (|b| > 0 ==> Full(b[..|b| - 1]))
    ensures a == b
  {
    if |a| > 0 && |b| > 0 {
      var m, n := |a| - 1, |b| - 1;
      FullSize(a[..m], va, cb - a[m].cb);
      FullSize(b[..n], va, cb - b[n].cb);
      assert a[m].cb == b[n].cb && m == n;
      FullFront(a, m);
      FullFront(b, n);
      TilingIsUnique(a[..m], b[..n], va, cb - a[m].cb);
      assert a == a[..m] + [a[m]] && b == b[..n] + [b[n]];
    }
  }

  lemma FullFront(a: seq<Chunk>, m: nat)
    requires m < |a| && Full(a[..m])
    ensures m > 0 ==> Full(a[..m][..m - 1])
  {
    assert forall c :: c in a[..m][..if m > 0 then m - 1 else 0] ==> c in a[..m];
  }

  lemma {:induction false} FullSize(chunks: seq<Chunk>, va: nat, cb: nat)
    requires Tiles(chunks, va, cb) && Full(chunks)
    ensures cb == |chunks| * MAX_CHUNK
  {
    if |chunks| > 0 {
      var n := |chunks| - 1;
      assert chunks[n] in chunks && forall c :: c in chunks[..n] ==> c in chunks;
      FullSize(chunks[..n], va, cb - chunks[n].cb);
    }
  }

  // ---------------------------------------------------------------- the end of the scan

  /** A worker that has started leaves only when the list is empty, and a list once empty stays empty. */
  predicate LeftOnlyEmpty(s: Scan) { (exists t :: 0 <= t < |s.workers| && s.workers[t].Left?) ==> s.queue == [] }

  predicate Started(w: Worker) { !w.Waiting? && !w.Failed? }

  predicate NoneStarted(s: Scan) { forall t :: 0 <= t < |s.workers| ==> !Started(s.workers[t]) }

  /** Without a worker that has started nothing has happened. */
  predicate StartedOrUntouched(s: Scan, queue: seq<Item>) {
    NoneStarted(s) ==> s.queue == queue && s.cbZero == s.cbIngest == 0
  }

  lemma {:induction false} RunLeavesEmpty(s: Scan, run: seq<Action>, queue: seq<Item>)
    requires Runs(s, run) && LeftOnlyEmpty(s) && StartedOrUntouched(s, queue)
    ensures LeftOnlyEmpty(After(s, run)) && StartedOrUntouched(After(s, run), queue)
            && |After(s, run).workers| == |s.workers|
    decreases |run|
  {
    if run != [] {
      StepLeavesEmpty(s, run[0], queue);
      RunLeavesEmpty(Next(s, run[0]), run[1..], queue);
    }
  }

  lemma StepLeavesEmpty(s: Scan, a: Action, queue: seq<Item>)
    requires Enabled(s, a) && LeftOnlyEmpty(s) && StartedOrUntouched(s, queue)
    ensures LeftOnlyEmpty(Next(s, a)) && StartedOrUntouched(Next(s, a), queue) && |Next(s, a).workers| == |s.workers|
  {
    var n := Next(s, a);
    if !a.Start? {
      assert Started(s.workers[a.t]) && Started(n.workers[a.t]);
    } else {
      assert forall t :: 0 <= t < |s.workers| && Started(s.workers[t]) ==> n.workers[t] == s.workers[t];
    }
  }

  /** Some worker has asked for its buffer and got it. */
  predicate GotBuffer(run: seq<Action>) { exists a :: a in run && a.Start? && a.heapOk }

  /** A worker starts to work exactly when it gets its buffer. */
  lemma {:induction false} BuffersStart(s: Scan, run: seq<Action>)
    requires Runs(s, run)
    ensures !NoneStarted(After(s, run)) <==> !NoneStarted(s) || GotBuffer(run)
    decreases |run|
  {
    if run != [] {
      assert run == [run[0]] + run[1..];
      StepStarts(s, run[0]);
      hide Next, Enabled, NoneStarted;
      BuffersStart(Next(s, run[0]), run[1..]);
    }
  }

  lemma StepStarts(s: Scan, a: Action)
    requires Enabled(s, a)
    ensures !NoneStarted(Next(s, a)) <==> !NoneStarted(s) || (a.Start? && a.heapOk)
  {
    var n := Next(s, a);
    assert n.workers == s.workers[a.t := n.workers[a.t]];
    if !NoneStarted(s) {
      var t :| 0 <= t < |s.workers| && Started(s.workers[t]);
      assert Started(n.workers[t]);
    } else if a.Start? && a.heapOk {
      assert Started(n.workers[a.t]);
    }
  }

  predicate Over(s: Scan) { forall t :: 0 <= t < |s.workers| ==> s.workers[t].Left? || s.workers[t].Failed? }

  /**
   When all workers have left, the bytes counted and the bytes still queued are those queued at the start. All of
   them are counted exactly when some worker got its buffer, or there was nothing to count.
   */
  lemma ScanCountsEverything(queue: seq<Item>, workers: nat, run: seq<Action>)
    requires Runs(Scan(queue, seq(workers, _ => Waiting), 0, 0), run)
    requires Over(After(Scan(queue, seq(workers, _ => Waiting), 0, 0), run))
    ensures var n := After(Scan(queue, seq(workers, _ => Waiting), 0, 0), run);
            && n.cbZero + n.cbIngest + Queued(n.queue) == Queued(queue)
            && (n.cbZero + n.cbIngest == Queued(queue) <==> GotBuffer(run) || Queued(queue) == 0)
  {
    var s := Scan(queue, seq(workers, _ => Waiting), 0, 0);
    RunConserves(s, run);
    RunLeavesEmpty(s, run, queue);
    BuffersStart(s, run);
    NothingInHand(s.workers);
    NothingInHand(After(s, run).workers);
  }

  /** If some worker got its buffer, every item queued has been popped once by then, and its chunks tile it. */
  lemma EveryItemIsTiled(queue: seq<Item>, workers: nat, run: seq<Action>)
    requires Runs(Scan(queue, seq(workers, _ => Waiting), 0, 0), run)
    requires var n := After(Scan(queue, seq(workers, _ => Waiting), 0, 0), run); Over(n) && GotBuffer(run)
    ensures var books := Recorded(Scan(queue, seq(workers, _ => Waiting), 0, 0), run, seq(workers, _ => []));
            && AllItems(books) == multiset(queue)
            && forall t, i :: 0 <= t < |books| && 0 <= i < |books[t]| ==> Complete(books[t][i])
  {
    var s := Scan(queue, seq(workers, _ => Waiting), 0, 0);
    hide AllItems, Complete;
    ItemsAreTiled(queue, workers, run);
    BuffersStart(s, run);
    RunLeavesEmpty(s, run, queue);
    var n, books := After(s, run), Recorded(s, run, seq(workers, _ => []));
    assert n.queue == [];
    assert multiset(n.queue) + AllItems(books) == AllItems(books);
    assert forall t :: 0 <= t < |books| ==> InOrder(n.workers[t], books[t]);
  }

  // ---------------------------------------------------------------- the verdicts

  datatype Verdict = Verdict(chunk: Chunk, zero: bool)

  /** What the workers find in a run, in the order in which they count it. */
  function Found(s: Scan, run: seq<Action>): seq<Verdict>
    requires Runs(s, run)
    decreases |run|
  {
    if run == [] then []
    else
      var rest := Found(Next(s, run[0]), run[1..]);
      if run[0].Count? then
        var item := s.workers[run[0].t].item;
        [Verdict(Chunk(item.va, Portion(item)), run[0].zero)] + rest
      else rest
  }

  function ZeroBytes(v: Verdict): nat { if v.zero then v.chunk.cb else 0 }
  function OtherBytes(v: Verdict): nat { if v.zero then 0 else v.chunk.cb }

  /** Each counter has grown by the bytes found with its verdict. */
  lemma {:induction false} CountersTellVerdicts(s: Scan, run: seq<Action>)
    requires Runs(s, run)
    ensures After(s, run).cbZero == s.cbZero + SumOf(ZeroBytes, Found(s, run))
    ensures After(s, run).cbIngest == s.cbIngest + SumOf(OtherBytes, Found(s, run))
    decreases |run|
  {
    if run != [] {
      var n := Next(s, run[0]);
      CountersTellVerdicts(n, run[1..]);
      var found, rest := Found(s, run), Found(n, run[1..]);
      assert run[0].Count? ==> found[1..] == rest;
    }
  }

  // ---------------------------------------------------------------- the scan ends

  /** The number of times something of the item is counted. */
  function Pieces(item: Item): nat {
    if item.isObject then 1 else (item.cb + MAX_CHUNK - 1) / MAX_CHUNK
  }

  function Chores(item: Item): nat { 1 + Pieces(item) }

  function ToDo(w: Worker): nat {
    match w
    case Waiting => 2
    case Idle => 1
    case Busy(item) => 1 + Pieces(item)
    case _ => 0
  }

  /** A bound on the steps still to be made. */
  function Rank(s: Scan): nat { SumOf(Chores, s.queue) + SumOf(ToDo, s.workers) }

  lemma StepLowersRank(s: Scan, a: Action)
    requires Enabled(s, a) && (a.Count? ==> s.workers[a.t].item.isObject || s.workers[a.t].item.cb > 0)
    ensures Rank(Next(s, a)) < Rank(s)
  {
    SumChanges(ToDo, s.workers, a.t, Next(s, a).workers[a.t]);
    if a.Pop? { SumWithout(Chores, s.queue, a.k); }
  }

  /** A worker has nothing empty in hand, but for an empty object. */
  predicate NothingEmpty(s: Scan) {
    forall t :: 0 <= t < |s.workers| && s.workers[t].Busy? ==> s.workers[t].item.isObject || s.workers[t].item.cb > 0
  }

  lemma StepKeepsNothingEmpty(s: Scan, a: Action)
    requires Enabled(s, a) && NothingEmpty(s)
    ensures NothingEmpty(Next(s, a))
  {
  }

  /** A worker that has not left can make a step. */
  lemma SomeStep(s: Scan) returns (a: Action)
    requires !Over(s)
    ensures Enabled(s, a)
  {
    var t :| 0 <= t < |s.workers| && !(s.workers[t].Left? || s.workers[t].Failed?);
    var w := s.workers[t];
    a := if w.Waiting? then Start(t, true) else if w.Busy? then Count(t, true)
         else if s.queue == [] then Leave(t) else Pop(t, 0);
  }

  lemma {:induction false} RunLowersRank(s: Scan, run: seq<Action>)
    requires Runs(s, run) && NothingEmpty(s)
    ensures |run| + Rank(After(s, run)) <= Rank(s) && NothingEmpty(After(s, run))
    decreases |run|
  {
    hide Next, Enabled, Rank, NothingEmpty;
    if run != [] {
      StepIsSound(s, run[0]);
      StepLowersRank(s, run[0]);
      StepKeepsNothingEmpty(s, run[0]);
      RunLowersRank(Next(s, run[0]), run[1..]);
    }
  }

  lemma StepIsSound(s: Scan, a: Action)
    requires Enabled(s, a) && NothingEmpty(s)
    ensures a.t < |s.workers|
    ensures a.Count? ==> s.workers[a.t].Busy? && (s.workers[a.t].item.isObject || s.workers[a.t].item.cb > 0)
  {
  }

  lemma {:induction false} Finishes(s: Scan) returns (run: seq<Action>)
    requires NothingEmpty(s)
    ensures Runs(s, run) && Over(After(s, run))
    decreases Rank(s)
  {
    hide Next, Enabled, Rank, NothingEmpty, Over;
    if Over(s) {
      run := [];
    } else {
      var a := SomeStep(s);
      StepIsSound(s, a);
      StepLowersRank(s, a);
      StepKeepsNothingEmpty(s, a);
      var rest := Finishes(Next(s, a));
      run := [a] + rest;
      assert run[1..] == rest;
    }
  }

  /**
   Whatever the order of the steps, the scan ends: no run is longer than two steps for each worker, one for each item
   and one for each chunk, and every run can be continued until all workers have left.
   */
  lemma EveryScanEnds(queue: seq<Item>, workers: nat, run: seq<Action>) returns (more: seq<Action>)
    requires Runs(Scan(queue, seq(workers, _ => Waiting), 0, 0), run)
    ensures |run| <= SumOf(Chores, queue) + 2 * workers
    ensures var n := After(Scan(queue, seq(workers, _ => Waiting), 0, 0), run); Runs(n, more) && Over(After(n, more))
  {
    var s := Scan(queue, seq(workers, _ => Waiting), 0, 0);
    RunLowersRank(s, run);
    TwoEach(s.workers);
    more := Finishes(After(s, run));
  }

  lemma {:induction false} TwoEach(ws: seq<Worker>)
    requires forall t :: 0 <= t < |ws| ==> ws[t].Waiting?
    ensures SumOf(ToDo, ws) == 2 * |ws|
  {
    if |ws| > 0 { TwoEach(ws[1..]); }
  }
}
