/** VMemD_Util_qfind of m_vmemd/m_vmemd.c: a search over byte offsets whose steps are powers of two. */
module QFind {
  import opened Transcode

  function Pow2(n: nat): (p: nat)
    ensures p > 0
  {
    if n == 0 then 1 else 2 * Pow2(n - 1)
  }

  /** `Stray`: the code would read outside the map. */
  datatype Found = Null | Entry(i: nat) | Stray

  /** Entries below what is looked for come first, then the equal ones, then those above. */
  ghost predicate Sorted<K, E>(map_: seq<E>, cmp: (K, E) -> int, find: K) {
    forall i, j :: 0 <= i < j < |map_| ==>
      && (cmp(find, map_[i]) < 0 ==> cmp(find, map_[j]) < 0)
      && (cmp(find, map_[j]) > 0 ==> cmp(find, map_[i]) > 0)
  }

  ghost predicate Present<K, E>(map_: seq<E>, cmp: (K, E) -> int, find: K) {
    exists i :: 0 <= i < |map_| && cmp(find, map_[i]) == 0
  }

  /** The byte offset of entry `i`, and the entry at a byte offset. */
  function Offset(i: nat, cb: nat): nat { i * cb }
  function Index(offset: nat, cb: nat): nat
    requires cb > 0
  {
    offset / cb
  }

  lemma OffsetOf(p: nat, n: nat, cb: nat)
    requires p < n && cb > 0
    ensures Offset(p, cb) + cb <= Offset(n, cb) && Index(Offset(p, cb), cb) == p && Offset(0, cb) == 0
            && Offset(1, cb) == cb
  {
    Times(p + 1, n, cb);
    assert (p + 1) * cb == p * cb + cb;
    Quotient(p, cb);
  }

  lemma Quotient(p: nat, cb: nat)
    requires cb > 0
    ensures (p * cb) / cb == p
  {
    var x := p * cb;
    var q, r := x / cb, x % cb;
    assert x == q * cb + r;
    if q < p {
      Times(q + 1, p, cb);
    } else if q > p {
      Times(p + 1, q, cb);
    }
  }

  lemma Times(a: nat, b: nat, cb: nat)
    requires a <= b
    ensures a * cb <= b * cb
  {
    assert b * cb == a * cb + (b - a) * cb && (b - a) * cb >= 0;
  }

  lemma Halved(m: nat, cb: nat)
    ensures Offset(2 * m, cb) / 2 == Offset(m, cb)
  {
    assert 2 * m * cb == 2 * (m * cb);
  }

  lemma Sum(p: nat, q: nat, cb: nat)
    ensures Offset(p, cb) + Offset(q, cb) == Offset(p + q, cb)
  {
  }

  lemma Below(p: nat, q: nat, cb: nat)
    requires cb > 0
    ensures p < q <==> Offset(p, cb) < Offset(q, cb)
  {
    if p < q { OffsetOf(p, q, cb); } else { Times(q, p, cb); }
  }

  /** x >> i */
  function ShiftedRight(x: nat, i: nat): (r: nat)
    ensures r == 0 <==> x < Pow2(i)
  {
    if i == 0 then x else ShiftedRight(x / 2, i - 1)
  }

  /** The first loop: the number of bits of `cMap - 1`, but at least 1. */
  method Bits(cMap: nat) returns (i: nat)
    requires 1 <= cMap <= 0x8000_0000
    ensures i >= 1 && cMap - 1 < Pow2(i) && (cMap == 1 ==> i == 1) && (cMap > 1 ==> Pow2(i - 1) <= cMap - 1)
  {
    i := 1;
    while ShiftedRight(cMap - 1, i) != 0
      invariant i >= 1 && (cMap == 1 ==> i == 1) && (cMap > 1 ==> Pow2(i - 1) <= cMap - 1)
      decreases cMap - Pow2(i - 1)
    {
      assert Pow2(i) <= cMap - 1;
      i := i + 1;
    }
  }

  lemma {:induction false} Pow2Grows(a: nat, b: nat)
    requires a <= b
    ensures Pow2(a) <= Pow2(b)
  {
    if a < b { Pow2Grows(a, b - 1); }
  }

  /** Some equal entry, or -1. */
  lemma Target<K, E>(map_: seq<E>, cmp: (K, E) -> int, find: K) returns (at: int)
    ensures -1 <= at < |map_|
    ensures at >= 0 <==> Present(map_, cmp, find)
    ensures at >= 0 ==> cmp(find, map_[at]) == 0
  {
    if Present(map_, cmp, find) {
      at :| 0 <= at < |map_| && cmp(find, map_[at]) == 0;
    } else {
      at := -1;
    }
  }

  /** One comparison tells on which side the target lies. */
  lemma Order<K, E>(map_: seq<E>, cmp: (K, E) -> int, find: K, p: nat, at: int)
    requires Sorted(map_, cmp, find) && p < |map_| && at < |map_| && (at >= 0 ==> cmp(find, map_[at]) == 0)
    ensures cmp(find, map_[p]) < 0 ==> at < p
    ensures cmp(find, map_[p]) > 0 && at >= 0 ==> p < at
  {
  }

  /** The search of `n` entries starts at `first` with a step of `s` entries and makes `left` steps. */
  ghost predicate Plan(n: nat, bits: nat, first: nat, s: nat, left: nat) {
    && left >= 1 && s == Pow2(left - 1)
    && (n <= 2 ==> left == 1 && first == n - 1)
    && (n > 2 ==> first == 2 * s && n <= 4 * s && 2 * s <= n - 1 && left == bits - 1)
  }

  lemma Planned(n: nat, bits: nat, first: nat) returns (s: nat, left: nat)
    requires n >= 1 && bits >= 1 && n - 1 < Pow2(bits) && (n == 1 ==> bits == 1) && (n > 1 ==> Pow2(bits - 1) <= n - 1)
    requires first == if Pow2(bits - 1) < n - 1 then Pow2(bits - 1) else n - 1
    ensures Plan(n, bits, first, s, left)
  {
    left := if bits <= 2 then 1 else bits - 1;
    s := Pow2(left - 1);
    assert Pow2(0) == 1 && Pow2(1) == 2 && Pow2(2) == 4;
    if bits > 2 {
      assert Pow2(bits) == 2 * Pow2(bits - 1) && Pow2(bits - 1) == 2 * Pow2(bits - 2);
    } else if bits == 2 {
      assert Pow2(bits - 1) == 2;
    }
  }

  /** The first step in bytes. */
  lemma StepBytes(n: nat, bits: nat, first: nat, s: nat, left: nat, cb: nat)
    requires Plan(n, bits, first, s, left) && cb >= 1 && n >= 1
    ensures Offset(s, cb) == if Offset(first, cb) / 2 > cb then Offset(first, cb) / 2 else cb
  {
    if n > 2 {
      Halved(s, cb);
      if left > 1 {
        assert s >= 2;
        Below(1, s, cb);
      } else {
        assert s == 1;
      }
    } else {
      assert s == 1;
    }
  }

  /** What remains of a step of `s` entries when its bytes are halved. */
  lemma Shrink(left: nat, s: nat, cb: nat)
    requires left > 0 && s == Pow2(left - 1) && cb >= 1
    ensures left > 1 ==> s / 2 == Pow2(left - 2) && s == 2 * (s / 2) && Offset(s, cb) / 2 == Offset(s / 2, cb) >= cb
    ensures left == 1 ==> s == 1 && Offset(s, cb) / 2 < cb
  {
    if left > 1 {
      assert Pow2(left - 1) == 2 * Pow2(left - 2);
      Halved(s / 2, cb);
      Times(1, s / 2, cb);
    }
  }

  /**
   The state between two comparisons: `p` is the entry at `cbSearch` and the next step is `s` entries; the target
   lies less than two steps away. A search that walked off a single entry is at -1, where its offset wraps.
   */
  ghost predicate Searching(n: nat, cb: nat, p: int, s: nat, left: nat, w: nat, at: int) {
    && (if left == 0 then w == 1 else s == Pow2(left - 1) && w == 2 * s)
    && p < n && (n > 1 ==> p >= 0) && p >= -1 && (left > 0 ==> p >= 0)
    && (n > 2 && left > 0 ==> p >= 2 * s)
    && (n == 2 && left > 0 ==> p == 1 && s == 1)
    && (n == 1 && left > 0 ==> left == 1)
    && (at >= 0 ==> p >= 0 && p - w <= at <= p + w - 1)
  }

  /** The states after a step down, up, or stopped by the clamp. */
  lemma Stepped(n: nat, cb: nat, p: int, s: nat, left: nat, w: nat, at: int)
    requires n >= 1 && cb >= 1 && left > 0 && at < n && Searching(n, cb, p, s, left, w, at)
    ensures at < p ==> (n == 1 ==> at < 0) && Searching(n, cb, p - s, s / 2, left - 1, s, at)
    ensures at < 0 || p < at ==> Searching(n, cb, if p + s < n then p + s else p, s / 2, left - 1, s, at)
    ensures n > 1 ==> s <= p
  {
    Shrink(left, s, cb);
  }

  lemma SearchStarts(n: nat, bits: nat, first: nat, s: nat, left: nat, cb: nat, at: int)
    requires Plan(n, bits, first, s, left) && n >= 1 && at < n
    ensures Searching(n, cb, first, s, left, 2 * s, at) && s >= 1
  {
  }

  lemma InRange(n: nat, cb: nat, p: int, s: nat, left: nat, w: nat, at: int)
    requires Searching(n, cb, p, s, left, w, at) && left > 0
    ensures 0 <= p < n && s == Pow2(left - 1) && (n == 1 ==> s == 1 == left)
  {
  }

  /** The target is under the last probe or just before it. */
  lemma Ended(n: nat, cb: nat, p: int, s: nat, left: nat, w: nat, at: int)
    requires Searching(n, cb, p, s, left, w, at) && left == 0
    ensures at >= 0 ==> p >= 0 && (at == p || at == p - 1)
  {
  }

  lemma FewProbes(n: nat, bits: nat, first: nat, steps: nat, s: nat, probes: nat)
    requires Plan(n, bits, first, s, steps) && probes <= steps + 2
    ensures probes <= 3 || Pow2(probes - 2) <= n - 1
  {
    if probes > 3 {
      Pow2Grows(probes - 2, steps);
      assert Pow2(steps) == 2 * s;
    }
  }

  /** The same, with the code's byte offsets. */
  ghost predicate Walking(n: nat, cb: nat, p: int, s: nat, left: nat, w: nat, at: int, cbSearch: dword, cbStep: dword) {
    && Searching(n, cb, p, s, left, w, at)
    && (if left == 0 then cbStep < cb else cbStep == Offset(s, cb) >= cb)
    && -1 <= p < n && (p < 0 ==> n == 1) && 1 <= cb <= 0xffff_ffff
    && cbSearch == if p < 0 then 0x1_0000_0000 - cb else Offset(p, cb)
  }

  lemma Walked(n: nat, cb: nat, p: int, s: nat, left: nat, w: nat, at: int, cbSearch: dword, cbStep: dword)
    requires Walking(n, cb, p, s, left, w, at, cbSearch, cbStep) && cbStep >= cb && at < n
             && Offset(n, cb) <= 0xffff_ffff
    ensures left > 0 && 0 <= p < n && Index(cbSearch, cb) == p && (n == 1 ==> s == 1 == left)
    ensures at < p ==> Walking(n, cb, p - s, s / 2, left - 1, s, at, Minus(cbSearch, cbStep), cbStep / 2)
    ensures at < 0 || p < at ==>
              if cbSearch + cbStep < Offset(n, cb) then
                cbSearch + cbStep <= 0xffff_ffff
                && Walking(n, cb, p + s, s / 2, left - 1, s, at, cbSearch + cbStep, cbStep / 2)
              else
                Walking(n, cb, p, s / 2, left - 1, s, at, cbSearch, cbStep / 2)
  {
    hide Searching, Pow2, Offset, Index;
    InRange(n, cb, p, s, left, w, at);
    OffsetOf(p, n, cb);
    Stepped(n, cb, p, s, left, w, at);
    Shrink(left, s, cb);
    if s <= p { Sum(p - s, s, cb); }
    Sum(p, s, cb);
    Below(p + s, n, cb);
    OffsetOf(0, n, cb);
  }

  lemma WalkStarts(n: nat, bits: nat, first: nat, s: nat, left: nat, cb: nat, at: int, cbSearch: dword, cbStep: dword)
    requires Plan(n, bits, first, s, left) && n >= 1 && at < n && 1 <= cb <= 0xffff_ffff && first < n
             && Offset(n, cb) <= 0xffff_ffff
    requires cbSearch == Offset(first, cb) && cbStep == if cbSearch / 2 > cb then cbSearch / 2 else cb
    ensures Walking(n, cb, first, s, left, 2 * s, at, cbSearch, cbStep) && left > 0 && (n == 1 ==> first == 0)
  {
    hide Searching, Pow2, Offset;
    StepBytes(n, bits, first, s, left, cb);
    SearchStarts(n, bits, first, s, left, cb, at);
  }

  /** Where the last probes go. */
  lemma WalkEnds(n: nat, cb: nat, p: int, s: nat, left: nat, w: nat, at: int, cbSearch: dword, cbStep: dword)
    requires n >= 1 && Walking(n, cb, p, s, left, w, at, cbSearch, cbStep) && cbStep < cb
             && Offset(n, cb) <= 0xffff_ffff
    ensures left == 0 && p < n && (at >= 0 ==> p >= 0 && (at == p || at == p - 1))
    ensures if p < 0 then n == 1 && (cbSearch < Offset(n, cb) <==> cb > 0x8000_0000) && cbSearch + cb > Offset(n, cb)
            else cbSearch + cb <= Offset(n, cb) && Index(cbSearch, cb) == p
    ensures p >= 1 ==> cbSearch >= cb && Index(cbSearch - cb, cb) == p - 1
    ensures p == 0 ==> cbSearch < cb
  {
    hide Searching, Pow2, Offset, Index;
    Ended(n, cb, p, s, left, w, at);
    OffsetOf(0, n, cb);
    if p >= 0 { OffsetOf(p, n, cb); }
    if p >= 1 {
      Sum(p - 1, 1, cb);
      OffsetOf(p - 1, n, cb);
    }
  }

  /**
   Finds an entry that compares equal if and only if there is one, comparing a logarithmic number of times, and
   reads outside the map in one case only: a single entry of more than 2 GB with the wanted key below it. The
   clamp of the step to the right may leave the last probe one past the entry, hence the probe before it.
   */
  method Find<K, E>(find: K, map_: array<E>, cbEntry: dword, cmp: (K, E) -> int) returns (r: Found, ghost probes: nat)
    requires map_.Length <= 0x8000_0000 && Offset(map_.Length, cbEntry) <= 0xffff_ffff
    requires Sorted(map_[..], cmp, find)
    ensures r.Stray? <==> map_.Length == 1 && cbEntry > 0x8000_0000 && cmp(find, map_[0]) < 0
    ensures r.Entry? ==> r.i < map_.Length && cmp(find, map_[r.i]) == 0
    ensures r.Null? && cbEntry > 0 ==> !Present(map_[..], cmp, find)
    ensures probes <= 3 || Pow2(probes - 2) <= map_.Length - 1
  {
    hide Sorted, Present, Pow2, Walking, Plan, Offset, Index;
    var n := map_.Length;
    ghost var at := Target(map_[..], cmp, find);
    if n == 0 || cbEntry == 0 { return Null, 0; }
    var bits := Bits(n);
    var cbMap := Offset(n, cbEntry);
    var first := if Pow2(bits - 1) < n - 1 then Pow2(bits - 1) else n - 1;
    OffsetOf(first, n, cbEntry);
    var cbSearch: dword := Offset(first, cbEntry);
    var cbStep: dword := if cbSearch / 2 > cbEntry then cbSearch / 2 else cbEntry;
    ghost var step0: nat, steps: nat := Planned(n, bits, first);
    WalkStarts(n, bits, first, step0, steps, cbEntry, at, cbSearch, cbStep);
    ghost var p: int, s: nat, w: nat, left: nat := first, step0, 2 * step0, steps;
    probes := 0;
    while cbStep >= cbEntry
      invariant probes + left == steps && Walking(n, cbEntry, p, s, left, w, at, cbSearch, cbStep)
      invariant n == 1 && left == 0 ==> (p < 0 <==> cmp(find, map_[0]) < 0)
      invariant n == 1 && left > 0 ==> p == 0
      decreases left
    {
      Walked(n, cbEntry, p, s, left, w, at, cbSearch, cbStep);
      var f := cmp(find, map_[Index(cbSearch, cbEntry)]);
      probes := probes + 1;
      Order(map_[..], cmp, find, p, at);
      if f < 0 {
        cbSearch := Minus(cbSearch, cbStep);
        p := p - s;
      } else if f > 0 {
        if cbSearch + cbStep < cbMap {
          cbSearch := cbSearch + cbStep;
          p := p + s;
        }
      } else {
        FewProbes(n, bits, first, steps, step0, probes);
        return Entry(Index(cbSearch, cbEntry)), probes;
      }
      cbStep := cbStep / 2;
      s, left, w := s / 2, left - 1, s;
    }
    WalkEnds(n, cbEntry, p, s, left, w, at, cbSearch, cbStep);
    FewProbes(n, bits, first, steps, step0, probes + 2);
    probes := probes + 2;
    if cbSearch < cbMap {
      if cbSearch + cbEntry > cbMap { return Stray, probes; }
      if cmp(find, map_[Index(cbSearch, cbEntry)]) == 0 { return Entry(Index(cbSearch, cbEntry)), probes; }
      if cbSearch >= cbEntry && cmp(find, map_[Index(cbSearch - cbEntry, cbEntry)]) == 0 {
        return Entry(Index(cbSearch - cbEntry, cbEntry)), probes;
      }
    }
    r := Null;
  }
}
