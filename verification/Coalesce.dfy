/** FcScanVirtmem_AddRangeKernelProcess of vmm/fc.c: the page table map of a kernel process merged into scan ranges. */
module Coalesce {

  const QWORD_SIZE: int := 0x1_0000_0000_0000_0000
  const LIMIT: int := 0x2000_0000
  const SYSTEM_PID: nat := 4

  type qword = x: int | 0 <= x < 0x1_0000_0000_0000_0000

  datatype Pte = Pte(vaBase: qword, cPages: qword)
  datatype Range = Range(va: qword, cb: nat)

  function TrueSize(e: Pte): nat { e.cPages * 0x1000 }
  function TrueEnd(e: Pte): nat { e.vaBase + TrueSize(e) }

  /** The size as the walk sees it: (DWORD)(cPages << 12). */
  function Size(e: Pte): nat { TrueSize(e) % 0x1_0000_0000 }
  function End(e: Pte): nat { e.vaBase + Size(e) }

  /** A map as the memory engine makes it: entries of at least a page, sorted and disjoint. */
  predicate ValidMap(map_: seq<Pte>) {
    && (forall i :: 0 <= i < |map_| ==> 0 < TrueSize(map_[i]) && TrueEnd(map_[i]) <= QWORD_SIZE)
    && forall i, j :: 0 <= i < j < |map_| ==> TrueEnd(map_[i]) <= map_[j].vaBase
  }

  lemma Seen(e: Pte)
    ensures Size(e) <= TrueSize(e) && End(e) <= TrueEnd(e)
  {
  }

  /** The entries that are scanned. */
  predicate Eligible(e: Pte, va: qword) { e.vaBase >= va && Size(e) <= LIMIT }

  predicate InEntry(e: Pte, a: int) { e.vaBase <= a < End(e) }
  predicate InRange(r: Range, a: int) { r.va <= a < r.va + r.cb }

  ghost predicate Touched(map_: seq<Pte>, va: qword, a: int) {
    exists i :: 0 <= i < |map_| && Eligible(map_[i], va) && InEntry(map_[i], a)
  }

  ghost predicate InRanges(rs: seq<Range>, a: int) { exists i :: 0 <= i < |rs| && InRange(rs[i], a) }

  /** The ranges contain exactly the bytes of the entries that are scanned. */
  ghost predicate Covers(rs: seq<Range>, map_: seq<Pte>, va: qword) {
    forall a: int :: InRanges(rs, a) <==> Touched(map_, va, a)
  }

  /** In order, without overlap, none of them over the limit, all of them at or below `top`. */
  predicate Orderly(rs: seq<Range>, top: int) {
    && (forall i :: 0 <= i < |rs| ==> rs[i].cb <= LIMIT && rs[i].va + rs[i].cb <= top)
    && forall i, j :: 0 <= i < j < |rs| ==> rs[i].va + rs[i].cb <= rs[j].va
  }

  predicate Follows(e: Pte, r: Range, va: qword) { Eligible(e, va) && Size(e) > 0 && e.vaBase == r.va + r.cb }

  /** No range could have taken the entry behind it. */
  predicate Greedy(rs: seq<Range>, map_: seq<Pte>, va: qword) {
    forall i, j :: 0 <= i < |rs| && 0 <= j < |map_| && Follows(map_[j], rs[i], va) ==> rs[i].cb + Size(map_[j]) > LIMIT
  }

  predicate Within(e: Pte, r: Range) { r.va <= e.vaBase && End(e) <= r.va + r.cb }

  ghost predicate Holds(rs: seq<Range>, e: Pte) { exists i :: 0 <= i < |rs| && Within(e, rs[i]) }

  /** No entry is split between two ranges. */
  ghost predicate Whole(rs: seq<Range>, map_: seq<Pte>, va: qword) {
    forall j :: 0 <= j < |map_| && Eligible(map_[j], va) ==> Holds(rs, map_[j])
  }

  /** The bytes of the entries that are scanned. */
  function Bytes(map_: seq<Pte>, va: qword): nat {
    if |map_| == 0 then 0
    else Bytes(map_[..|map_| - 1], va) + if Eligible(map_[|map_| - 1], va) then Size(map_[|map_| - 1]) else 0
  }

  lemma BytesGrow(map_: seq<Pte>, va: qword, n: nat)
    requires n < |map_|
    ensures Bytes(map_[..n + 1], va) == Bytes(map_[..n], va) + if Eligible(map_[n], va) then Size(map_[n]) else 0
  {
    assert map_[..n + 1][..n] == map_[..n];
  }

  /** What the ranges of one process are. */
  ghost predicate Merged(rs: seq<Range>, map_: seq<Pte>, va: qword) {
    Total(rs) == Bytes(map_, va) && Covers(rs, map_, va) && Whole(rs, map_, va) && Orderly(rs, QWORD_SIZE)
    && Greedy(rs, map_, va)
  }

  function Total(rs: seq<Range>): nat { if |rs| == 0 then 0 else Total(rs[..|rs| - 1]) + rs[|rs| - 1].cb }

  /** Ranges of other processes that the system process has, too, are not added again. */
  function Added(rs: seq<Range>, all: bool, known: qword -> bool): seq<Range> {
    if |rs| == 0 then []
    else
      var r := rs[|rs| - 1];
      Added(rs[..|rs| - 1], all, known) + if all || !known(r.va) then [r] else []
  }

  lemma {:induction false} AllAdded(rs: seq<Range>, known: qword -> bool)
    ensures Added(rs, true, known) == rs
  {
    if |rs| > 0 { AllAdded(rs[..|rs| - 1], known); }
  }

  /** Of the ranges of another process those are passed on that the system process does not have. */
  lemma {:induction false} AddedIff(rs: seq<Range>, all: bool, known: qword -> bool, r: Range)
    ensures r in Added(rs, all, known) <==> r in rs && (all || !known(r.va))
    ensures |Added(rs, all, known)| <= |rs|
  {
    if |rs| > 0 {
      AddedIff(rs[..|rs| - 1], all, known, r);
      assert rs == rs[..|rs| - 1] + [rs[|rs| - 1]];
    }
  }

  // ---------------------------------------------------------------- steps of the walk

  lemma TouchedGrows(map_: seq<Pte>, va: qword, n: nat, a: int)
    requires n < |map_|
    ensures Touched(map_[..n + 1], va, a) <==>
            Touched(map_[..n], va, a) || (Eligible(map_[n], va) && InEntry(map_[n], a))
  {
    hide Eligible, InEntry;
    var m := map_[..n + 1];
    if Touched(m, va, a) {
      var i :| 0 <= i < |m| && Eligible(m[i], va) && InEntry(m[i], a);
      assert i < n ==> map_[..n][i] == m[i];
    }
    if Touched(map_[..n], va, a) {
      var i :| 0 <= i < n && Eligible(map_[..n][i], va) && InEntry(map_[..n][i], a);
      assert m[i] == map_[..n][i];
    }
    assert m[n] == map_[n];
  }

  lemma InRangesGrows(rs: seq<Range>, r: Range, a: int)
    ensures InRanges(rs + [r], a) <==> InRanges(rs, a) || InRange(r, a)
  {
    hide InRange;
    if InRanges(rs, a) {
      var i :| 0 <= i < |rs| && InRange(rs[i], a);
      assert (rs + [r])[i] == rs[i];
    }
    assert (rs + [r])[|rs|] == r;
  }

  /** An entry that is passed over. */
  lemma Skipped(rs: seq<Range>, map_: seq<Pte>, va: qword, n: nat)
    requires n < |map_| && Covers(rs, map_[..n], va) && !Eligible(map_[n], va)
    ensures Covers(rs, map_[..n + 1], va)
  {
    hide Eligible, InEntry, Touched, InRanges;
    forall a: int ensures InRanges(rs, a) <==> Touched(map_[..n + 1], va, a) { TouchedGrows(map_, va, n, a); }
  }

  /** An entry that opens a range. */
  lemma Opens(rs: seq<Range>, map_: seq<Pte>, va: qword, n: nat)
    requires n < |map_| && Covers(rs, map_[..n], va) && Eligible(map_[n], va)
    ensures Covers(rs + [Range(map_[n].vaBase, Size(map_[n]))], map_[..n + 1], va)
  {
    hide Touched, InRanges;
    var r := Range(map_[n].vaBase, Size(map_[n]));
    forall a: int ensures InRanges(rs + [r], a) <==> Touched(map_[..n + 1], va, a) {
      TouchedGrows(map_, va, n, a);
      InRangesGrows(rs, r, a);
    }
  }

  /** An entry that extends the last range. */
  lemma Extends(rs: seq<Range>, r: Range, map_: seq<Pte>, va: qword, n: nat)
    requires n < |map_| && Covers(rs + [r], map_[..n], va) && Eligible(map_[n], va) && map_[n].vaBase == r.va + r.cb
    ensures Covers(rs + [Range(r.va, r.cb + Size(map_[n]))], map_[..n + 1], va)
  {
    hide Touched, InRanges;
    var r' := Range(r.va, r.cb + Size(map_[n]));
    forall a: int ensures InRanges(rs + [r'], a) <==> Touched(map_[..n + 1], va, a) {
      TouchedGrows(map_, va, n, a);
      InRangesGrows(rs, r, a);
      InRangesGrows(rs, r', a);
    }
  }

  /** Adding a range, or growing the last one, splits nothing. */
  lemma StaysWhole(rs: seq<Range>, was: seq<Range>, now: Range, map_: seq<Pte>, va: qword, n: nat)
    requires n < |map_| && Whole(rs + was, map_[..n], va) && |was| <= 1
    requires |was| == 1 ==> was[0].va == now.va && was[0].cb <= now.cb
    requires Eligible(map_[n], va) ==> Within(map_[n], now)
    ensures Whole(rs + [now], map_[..n + 1], va)
  {
    hide Eligible;
    var m := map_[..n + 1];
    forall j | 0 <= j < |m| && Eligible(m[j], va) ensures Holds(rs + [now], m[j]) {
      if j < n {
        assert m[j] == map_[..n][j];
        assert Holds(rs + was, m[j]);
        var i :| 0 <= i < |rs + was| && Within(m[j], (rs + was)[i]);
        assert Within(m[j], (rs + [now])[i]);
      } else {
        assert Within(m[j], (rs + [now])[|rs|]);
      }
    }
  }

  lemma SkipStaysWhole(rs: seq<Range>, map_: seq<Pte>, va: qword, n: nat)
    requires n < |map_| && Whole(rs, map_[..n], va) && !Eligible(map_[n], va)
    ensures Whole(rs, map_[..n + 1], va)
  {
    hide Eligible, Holds;
    var m := map_[..n + 1];
    forall j | 0 <= j < |m| && Eligible(m[j], va) ensures Holds(rs, m[j]) {
      assert m[j] == map_[j] && j < n && map_[..n][j] == m[j];
    }
  }

  /** The walk has dealt with `map_[..n]`. */
  ghost predicate Walked(rs: seq<Range>, map_: seq<Pte>, va0: qword, va: qword, n: nat) {
    && n <= |map_| && Covers(rs, map_[..n], va0) && Whole(rs, map_[..n], va0) && Total(rs) == Bytes(map_[..n], va0)
    && Orderly(rs, if n == 0 then 0 else End(map_[n - 1])) && Greedy(rs, map_, va0)
    && va0 <= va && (va == va0 || (n > 0 && va <= map_[n - 1].vaBase))
  }

  /** `r` is being built; its last entry is `map_[n - 1]`. */
  ghost predicate Building(rs: seq<Range>, r: Range, map_: seq<Pte>, va0: qword, n: nat) {
    && 0 < n <= |map_| && Covers(rs + [r], map_[..n], va0) && Whole(rs + [r], map_[..n], va0)
    && Total(rs) + r.cb == Bytes(map_[..n], va0) && Orderly(rs, r.va) && Greedy(rs, map_, va0)
    && r.cb <= LIMIT && r.va >= va0 && r.va + r.cb == End(map_[n - 1]) && r.va <= map_[n - 1].vaBase
  }

  lemma WalkStarts(map_: seq<Pte>, va: qword)
    ensures Walked([], map_, va, va, 0)
  {
    forall a: int ensures InRanges([], a) <==> Touched(map_[..0], va, a) {}
  }

  lemma WalkSkips(rs: seq<Range>, map_: seq<Pte>, va0: qword, va: qword, n: nat)
    requires ValidMap(map_) && Walked(rs, map_, va0, va, n) && n < |map_|
             && (map_[n].vaBase < va || Size(map_[n]) > LIMIT)
    ensures Walked(rs, map_, va0, va, n + 1)
  {
    hide Covers, Greedy, Whole, TrueSize;
    if n > 0 { Seen(map_[n - 1]); }
    assert n > 0 ==> TrueEnd(map_[n - 1]) <= map_[n].vaBase;
    Skipped(rs, map_, va0, n);
    BytesGrow(map_, va0, n);
    SkipStaysWhole(rs, map_, va0, n);
  }

  lemma WalkOpens(rs: seq<Range>, map_: seq<Pte>, va0: qword, va: qword, n: nat)
    requires ValidMap(map_) && Walked(rs, map_, va0, va, n) && n < |map_| && map_[n].vaBase >= va
             && Size(map_[n]) <= LIMIT
    ensures Building(rs, Range(map_[n].vaBase, Size(map_[n])), map_, va0, n + 1)
  {
    hide Covers, Greedy, Whole, TrueSize;
    if n > 0 { Seen(map_[n - 1]); }
    assert n > 0 ==> TrueEnd(map_[n - 1]) <= map_[n].vaBase;
    Opens(rs, map_, va0, n);
    BytesGrow(map_, va0, n);
    assert rs + [] == rs;
    StaysWhole(rs, [], Range(map_[n].vaBase, Size(map_[n])), map_, va0, n);
  }

  lemma BuildExtends(rs: seq<Range>, r: Range, map_: seq<Pte>, va0: qword, n: nat)
    requires ValidMap(map_) && Building(rs, r, map_, va0, n) && n < |map_|
    requires map_[n].vaBase == r.va + r.cb && r.cb + Size(map_[n]) <= LIMIT
    ensures Building(rs, Range(r.va, r.cb + Size(map_[n])), map_, va0, n + 1)
  {
    hide Covers, Greedy, Orderly, Whole;
    Extends(rs, r, map_, va0, n);
    BytesGrow(map_, va0, n);
    StaysWhole(rs, [r], Range(r.va, r.cb + Size(map_[n])), map_, va0, n);
  }

  lemma InOrder(map_: seq<Pte>, i: nat, j: nat)
    requires ValidMap(map_) && i < j <= |map_|
    ensures (i < j - 1 ==> map_[i].vaBase < map_[j - 1].vaBase) && End(map_[j - 1]) <= TrueEnd(map_[j - 1])
    ensures j < |map_| ==> TrueEnd(map_[j - 1]) <= map_[j].vaBase && map_[j - 1].vaBase < map_[j].vaBase
  {
    hide TrueSize;
    Seen(map_[j - 1]);
    assert i < j - 1 ==> TrueEnd(map_[i]) <= map_[j - 1].vaBase;
  }

  /** The only entry that can start where `map_[n - 1]` ends, and is not empty, is the next one. */
  lemma Behind(map_: seq<Pte>, n: nat, j: nat)
    requires ValidMap(map_) && 0 < n <= |map_| && j < |map_| && map_[j].vaBase == End(map_[n - 1]) && Size(map_[j]) > 0
    ensures j == n
  {
    hide ValidMap;
    if j < n {
      InOrder(map_, j, n);
    } else if j > n {
      InOrder(map_, n, j);
      InOrder(map_, n - 1, n);
    }
  }

  lemma BuildCloses(rs: seq<Range>, r: Range, map_: seq<Pte>, va0: qword, n: nat)
    requires ValidMap(map_) && Building(rs, r, map_, va0, n)
    requires n < |map_| ==> map_[n].vaBase != r.va + r.cb || Size(map_[n]) > LIMIT || r.cb + Size(map_[n]) > LIMIT
    ensures Walked(rs + [r], map_, va0, r.va, n)
  {
    hide Covers, Whole, Bytes, Size, Eligible;
    TotalGrows(rs, r);
    var out := rs + [r];
    forall i, j | 0 <= i < |out| && 0 <= j < |map_| && Follows(map_[j], out[i], va0)
      ensures out[i].cb + Size(map_[j]) > LIMIT
    {
      if i < |rs| {
        assert out[i] == rs[i];
      } else {
        Behind(map_, n, j);
      }
    }
    assert Orderly(out, End(map_[n - 1]));
  }

  lemma WalkDone(rs: seq<Range>, map_: seq<Pte>, va0: qword, va: qword)
    requires ValidMap(map_) && Walked(rs, map_, va0, va, |map_|)
    ensures Merged(rs, map_, va0)
  {
    hide Covers, Greedy, Whole;
    assert map_[..|map_|] == map_;
  }

  lemma AddedGrows(rs: seq<Range>, r: Range, all: bool, known: qword -> bool)
    ensures Added(rs + [r], all, known) == Added(rs, all, known) + if all || !known(r.va) then [r] else []
  {
    assert (rs + [r])[..|rs|] == rs;
  }

  // ---------------------------------------------------------------- the scan list

  /** The part of the scan context that the planning of kernel ranges updates. */
  class ScanContext {
    var items: seq<Range>
    var c: nat
    var cb: nat

    constructor ()
      ensures items == [] && c == 0 && cb == 0
    {
      items, c, cb := [], 0, 0;
    }

    method AddRange(r: Range)
      modifies this
      ensures items == old(items) + [r] && c == old(c) + 1 && cb == old(cb) + r.cb
    {
      items := items + [r];
      cb := cb + r.cb;
      c := c + 1;
    }

    /**
     `known` tells whether the scan list already has the system process's range at an address. The caller sees
     the ranges passed on: those of a sequence that is `Merged`, less the known ones.
     */
    method AddRangeKernelProcess(pteMap: array<Pte>, pid: nat, va0: qword, known: qword -> bool)
      returns (ghost rs: seq<Range>)
      requires ValidMap(pteMap[..])
      modifies this
      ensures Merged(rs, pteMap[..], va0)
      ensures items == old(items) + Added(rs, pid == 4, known)
      ensures c == old(c) + |Added(rs, pid == 4, known)|
              && cb == old(cb) + Total(Added(rs, pid == 4, known))
    {
      hide ValidMap, Walked, Building, Added, Merged, Total, Size;
      ghost var map_ := pteMap[..];
      rs := [];
      ghost var added: seq<Range> := [];
      WalkStarts(map_, va0);
      NothingAdded(pid == SYSTEM_PID, known);
      var iPte, va: qword := 0, va0;
      while iPte < pteMap.Length
        invariant iPte <= |map_| && Walked(rs, map_, va0, va, iPte)
        invariant added == Added(rs, pid == SYSTEM_PID, known)
        invariant items == old(items) + added && c == old(c) + |added| && cb == old(cb) + Total(added)
      {
        var e := pteMap[iPte];
        assert e == map_[iPte];
        SizeFits(map_, iPte);
        var cbPte := Size(e);
        if e.vaBase < va || cbPte > LIMIT {
          WalkSkips(rs, map_, va0, va, iPte);
          iPte := iPte + 1;
          continue;
        }
        WalkOpens(rs, map_, va0, va, iPte);
        va := e.vaBase;
        var vaMax: qword := (e.vaBase + cbPte) % QWORD_SIZE;
        ghost var size: nat := cbPte;
        iPte := iPte + 1;
        while iPte < pteMap.Length
          modifies {}
          invariant iPte <= |map_| && Building(rs, Range(va, size), map_, va0, iPte)
          invariant va + size <= QWORD_SIZE && vaMax == (va + size) % QWORD_SIZE && size <= LIMIT
          invariant iPte < |map_| ==> va + size < QWORD_SIZE
        {
          var next := pteMap[iPte];
          assert next == map_[iPte];
          SizeFits(map_, iPte);
          var cbNext := Size(next);
          if vaMax != next.vaBase || cbNext > LIMIT || vaMax - va + cbNext > LIMIT { break; }
          BuildExtends(rs, Range(va, size), map_, va0, iPte);
          vaMax := (vaMax + cbNext) % QWORD_SIZE;
          size := size + cbNext;
          iPte := iPte + 1;
        }
        BuildCloses(rs, Range(va, size), map_, va0, iPte);
        AddedGrows(rs, Range(va, size), pid == SYSTEM_PID, known);
        rs := rs + [Range(va, size)];
        var cbRange := (vaMax - va) % QWORD_SIZE % 0x1_0000_0000;
        assert cbRange == size;
        if pid == SYSTEM_PID || !known(va) {
          TotalGrows(added, Range(va, size));
          AddRange(Range(va, cbRange));
          added := added + [Range(va, size)];
        }
      }
      WalkDone(rs, map_, va0, va);
    }
  }

  lemma NothingAdded(all: bool, known: qword -> bool)
    ensures Added([], all, known) == [] && Total([]) == 0
  {
  }

  lemma TotalGrows(rs: seq<Range>, r: Range)
    ensures Total(rs + [r]) == Total(rs) + r.cb
  {
    assert (rs + [r])[..|rs|] == rs;
  }

  lemma SizeFits(map_: seq<Pte>, n: nat)
    requires ValidMap(map_) && n < |map_|
    ensures End(map_[n]) <= QWORD_SIZE
    ensures forall j :: 0 <= j < n ==> End(map_[j]) < QWORD_SIZE
    ensures n + 1 < |map_| ==> End(map_[n]) < QWORD_SIZE
  {
    hide TrueSize;
    Seen(map_[n]);
    forall j | 0 <= j < n ensures End(map_[j]) < QWORD_SIZE {
      Seen(map_[j]);
      assert TrueEnd(map_[j]) <= map_[n].vaBase;
    }
    assert n + 1 < |map_| ==> TrueEnd(map_[n]) <= map_[n + 1].vaBase;
  }

  // ---------------------------------------------------------------- what follows

  /** Two ranges that touch are together over the limit, unless the second one is empty. */
  lemma NeighboursExceedLimit(rs: seq<Range>, map_: seq<Pte>, va: qword, i: nat)
    requires ValidMap(map_) && Merged(rs, map_, va) && i + 1 < |rs| && rs[i].va + rs[i].cb == rs[i + 1].va
             && rs[i + 1].cb > 0
    ensures rs[i].cb + rs[i + 1].cb > LIMIT
  {
    hide TrueSize;
    var a := rs[i + 1].va;
    assert InRange(rs[i + 1], a) && InRanges(rs, a);
    assert Touched(map_, va, a);
    var j :| 0 <= j < |map_| && Eligible(map_[j], va) && InEntry(map_[j], a);
    assert Holds(rs, map_[j]);
    var k :| 0 <= k < |rs| && Within(map_[j], rs[k]);
    assert k == i + 1;
    assert Follows(map_[j], rs[i], va);
  }

  /** What is meant to be scanned: the entries from `va` on that are not over the limit. */
  predicate Meant(e: Pte, va: qword) { e.vaBase >= va && TrueSize(e) <= 0x2000_0000 }

  /** An entry of 4 GB or more whose size, as a DWORD, looks like that of one to be scanned. */
  predicate Misjudged(e: Pte, va: qword) { e.vaBase >= va && TrueSize(e) > LIMIT && 0 < Size(e) <= LIMIT }

  ghost predicate InMeant(map_: seq<Pte>, va: qword, a: int) {
    exists i :: 0 <= i < |map_| && Meant(map_[i], va) && map_[i].vaBase <= a < TrueEnd(map_[i])
  }

  ghost predicate CoversMeant(rs: seq<Range>, map_: seq<Pte>, va: qword) {
    forall a: int :: InRanges(rs, a) <==> InMeant(map_, va, a)
  }

  /**
   The ranges are what is meant to be scanned exactly when no entry is misjudged; of those the first bytes are scanned.
   */
  lemma CoversMeantIff(rs: seq<Range>, map_: seq<Pte>, va: qword)
    requires ValidMap(map_) && Merged(rs, map_, va)
    ensures CoversMeant(rs, map_, va) <==> forall i :: 0 <= i < |map_| ==> !Misjudged(map_[i], va)
  {
    hide Orderly, Greedy, Whole, Bytes, Total;
    if i :| 0 <= i < |map_| && Misjudged(map_[i], va) {
      var a := map_[i].vaBase;
      assert Eligible(map_[i], va) && InEntry(map_[i], a);
      assert Touched(map_, va, a) && InRanges(rs, a);
      forall j | 0 <= j < |map_| && Meant(map_[j], va) ensures !(map_[j].vaBase <= a < TrueEnd(map_[j])) {
        if j != i { Apart(map_, i, j); }
      }
    } else {
      forall a: int
        ensures InRanges(rs, a) <==> InMeant(map_, va, a)
      {
        SeenAsMeant(map_, va, a);
      }
    }
  }

  lemma SeenAsMeant(map_: seq<Pte>, va: qword, a: int)
    requires forall i :: 0 <= i < |map_| ==> !Misjudged(map_[i], va)
    ensures Touched(map_, va, a) <==> InMeant(map_, va, a)
  {
    forall i | 0 <= i < |map_|
      ensures Eligible(map_[i], va) && InEntry(map_[i], a) <==>
              Meant(map_[i], va) && map_[i].vaBase <= a < TrueEnd(map_[i])
    {
      assert !Misjudged(map_[i], va);
      SmallIsSeen(map_[i]);
    }
    hide Eligible, InEntry, Meant, TrueEnd;
    if i :| 0 <= i < |map_| && Eligible(map_[i], va) && InEntry(map_[i], a) { assert Meant(map_[i], va); }
    if i :| 0 <= i < |map_| && Meant(map_[i], va) && map_[i].vaBase <= a < TrueEnd(map_[i]) {
      assert Eligible(map_[i], va);
    }
  }

  lemma SmallIsSeen(e: Pte)
    ensures TrueSize(e) <= LIMIT ==> Size(e) == TrueSize(e)
  {
  }

  lemma Apart(map_: seq<Pte>, i: nat, j: nat)
    requires ValidMap(map_) && i < |map_| && j < |map_| && i != j
    ensures !(map_[j].vaBase <= map_[i].vaBase < TrueEnd(map_[j]))
  {
    hide TrueSize;
    assert j < i ==> TrueEnd(map_[j]) <= map_[i].vaBase;
    assert i < j ==> TrueEnd(map_[i]) <= map_[j].vaBase;
  }

  /** An entry of 4 GB and one page gets its first page scanned. */
  lemma HugeEntryIsMisjudged()
    ensures var e := Pte(0, 0x10_0001);
            ValidMap([e]) && TrueSize(e) == 0x1_0000_1000 && Size(e) == 0x1000 && Misjudged(e, 0)
  {
  }
}
