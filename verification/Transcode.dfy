/**
 Vocabulary shared by the text converters of vmm/charutil.c: DWORD arithmetic, C strings, the flags,
 per-character expansion of a text, greedy truncation, and the placement of a result in the caller's
 buffer or on the heap.
 */
module Transcode {

  // ---------------------------------------------------------------- DWORD cursors

  type dword = x: int | 0 <= x < 0x1_0000_0000

  /** DWORD subtraction. */
  function Minus(a: dword, b: dword): dword { if a >= b then (a as int - b) else a as int - b + 0x1_0000_0000 }

  /** The low 32 bits of a sum. */
  function Wrapped(n: nat): dword { n % 0x1_0000_0000 }

  lemma WrapSum(a: nat, b: nat, x: nat)
    ensures Wrapped(Wrapped(a) + x) == Wrapped(a + x)
    ensures Wrapped(a) == Wrapped(b) ==> Wrapped(a + x) == Wrapped(b + x)
  {
  }

  /** The DWORD counters `a` and `b` add up to the low 32 bits of `size`. */
  predicate AddUp(a: dword, b: dword, size: nat) { Wrapped(a + b) == Wrapped(size) }

  lemma AddUpStarts()
    ensures AddUp(0, 0, 0)
  {
  }

  /** Counting on by `x` and `y`, and what the room test sees before that. */
  lemma AddUpMore(a: dword, b: dword, size: nat, x: nat, y: nat, cap: nat)
    requires AddUp(a, b, size) && a + x <= 0xffff_ffff
    ensures AddUp(a + x, Wrapped(b + y), size + (x + y))
    ensures Over(size + (x + y), cap) <==> Wrapped(a + b + (x + y)) >= cap
  {
    hide Wrapped;
    WrapSum(b + y, 0, a + x);
    WrapSum(a + b, size, x + y);
    assert Wrapped(a + x + Wrapped(b + y)) == Wrapped(Wrapped(b + y) + (a + x)) == Wrapped(a + b + (x + y));
  }

  /** The code's size, NUL included, is the true one exactly when that is a DWORD. */
  lemma CountersAreExactIff(a: dword, b: dword, size: nat)
    requires AddUp(a, b, size) && a < 0xffff_ffff
    ensures Wrapped(a as int + 1 + b) == Wrapped(size + 1)
    ensures Wrapped(a as int + 1 + b) == size + 1 <==> size + 1 < 0x1_0000_0000
  {
    WrapSum(a + b, size, 1);
  }

  /** The test that ends a truncating count pass: `n` cells, added up as a DWORD, leave no room for a terminator. */
  predicate Over(n: nat, cap: nat) { Wrapped(n) >= cap }

  lemma OverWhenSmall(n: nat, cap: nat)
    requires n < 0x1_0000_0000
    ensures Over(n, cap) <==> n + 1 > cap
  {
  }

  /** The room test against a plain comparison, for a character of at most six cells. */
  lemma OverOrNot(used: nat, more: nat, cap: nat)
    requires used + 1 <= cap <= 0xffff_ffff && more <= 6
    ensures used + more + 1 <= cap ==> !Over(used + more, cap)
    ensures used + more + 1 > cap ==> (Over(used + more, cap) <==> used + more < 0x1_0000_0000)
  {
  }

  const CONVERT_MAXSIZE: dword := 0x4000_0000

  function Limit(cch: dword): dword { if cch > CONVERT_MAXSIZE then CONVERT_MAXSIZE else cch }

  // ---------------------------------------------------------------- C strings

  /** Length of the string at the start of `mem`, as strnlen counts it. */
  function Strnlen<T(==)>(mem: seq<T>, zero: T, lim: nat): (n: nat)
    ensures n <= lim && n <= |mem|
    ensures forall k :: 0 <= k < n ==> mem[k] != zero
    ensures n < lim && n < |mem| ==> mem[n] == zero
  {
    if lim == 0 || |mem| == 0 || mem[0] == zero then 0 else 1 + Strnlen(mem[1..], zero, lim - 1)
  }

  /** Reading the string never leaves the memory it lies in. */
  predicate Terminated<T(==)>(mem: seq<T>, zero: T, lim: nat) {
    var n := Strnlen(mem, zero, lim);
    n == lim || n < |mem|
  }

  /** A null pointer stands for the empty string. */
  function Text<T(==)>(p: array?<T>, zero: T, cch: dword): seq<T>
    reads p
  {
    if p == null then [] else p[..Strnlen(p[..], zero, Limit(cch))]
  }

  predicate Readable<T(==)>(p: array?<T>, zero: T, cch: dword)
    reads p
  {
    p != null ==> p.Length > 0 && Terminated(p[..], zero, Limit(cch))
  }

  /** A null pointer is read as an empty string. */
  method Source<T(==)>(p: array?<T>, zero: T, cch: dword) returns (s: array<T>)
    requires Readable(p, zero, cch)
    ensures if p == null then fresh(s) && s.Length == 1 && s[0] == zero else s == p
    ensures s.Length > 0 && Terminated(s[..], zero, Limit(cch))
    ensures s[..Strnlen(s[..], zero, Limit(cch))] == Text(p, zero, cch)
  {
    if p == null { s := new T[1](_ => zero); } else { s := p; }
  }

  // ---------------------------------------------------------------- expansion

  function FlatMap<S, T>(f: S -> seq<T>, s: seq<S>): seq<T> {
    if |s| == 0 then [] else f(s[0]) + FlatMap(f, s[1..])
  }

  lemma {:induction false} FlatMapConcat<S, T>(f: S -> seq<T>, a: seq<S>, b: seq<S>)
    ensures FlatMap(f, a + b) == FlatMap(f, a) + FlatMap(f, b)
  {
    if |a| == 0 {
      assert a + b == b;
    } else {
      var rest := FlatMap(f, a[1..]);
      assert (a + b)[0] == a[0] && (a + b)[1..] == a[1..] + b;
      FlatMapConcat(f, a[1..], b);
      assert f(a[0]) + (rest + FlatMap(f, b)) == (f(a[0]) + rest) + FlatMap(f, b);
    }
  }

  lemma FlatMapOne<S, T>(f: S -> seq<T>, c: S)
    ensures FlatMap(f, [c]) == f(c)
  {
    assert FlatMap(f, [c]) == f(c) + FlatMap(f, []);
  }

  lemma FlatMapSplit<S, T>(f: S -> seq<T>, s: seq<S>, i: nat)
    requires i <= |s|
    ensures FlatMap(f, s) == FlatMap(f, s[..i]) + FlatMap(f, s[i..])
  {
    FlatMapConcat(f, s[..i], s[i..]);
    assert s == s[..i] + s[i..];
  }

  /** What the element at `i` adds to the prefix before it and to the suffix after it. */
  lemma FlatMapAt<S, T>(f: S -> seq<T>, s: seq<S>, i: nat)
    requires i < |s|
    ensures FlatMap(f, s[..i + 1]) == FlatMap(f, s[..i]) + f(s[i])
    ensures FlatMap(f, s[i..]) == f(s[i]) + FlatMap(f, s[i + 1..])
  {
    FlatMapSplit(f, s[..i + 1], i);
    assert s[..i + 1][..i] == s[..i] && s[..i + 1][i..] == [s[i]];
    FlatMapOne(f, s[i]);
    assert s[i..][0] == s[i] && s[i..][1..] == s[i + 1..];
  }

  /** Two expansions in a row are one expansion. */
  lemma {:induction false} FlatMapFusion<S, T, U>(f: S -> seq<T>, g: T -> seq<U>, h: S -> seq<U>, s: seq<S>)
    requires forall x :: x in s ==> FlatMap(g, f(x)) == h(x)
    ensures FlatMap(g, FlatMap(f, s)) == FlatMap(h, s)
  {
    if s != [] {
      FlatMapFusion(f, g, h, s[1..]);
      FlatMapConcat(g, f(s[0]), FlatMap(f, s[1..]));
    }
  }

  /** An expansion never shrinks a text whose every character expands to something. */
  lemma {:induction false} FlatMapGrows<S, T>(f: S -> seq<T>, s: seq<S>)
    requires forall x :: x in s ==> |f(x)| >= 1
    ensures |FlatMap(f, s)| >= |s|
  {
    if s != [] {
      FlatMapGrows(f, s[1..]);
    }
  }

  // ---------------------------------------------------------------- truncation

  /** The number of characters that fit with a terminator, taken greedily. */
  function Fit<S, T>(f: S -> seq<T>, s: seq<S>, used: nat, cap: nat): (k: nat)
    ensures k <= |s|
  {
    if s == [] || used + |f(s[0])| + 1 > cap then 0 else 1 + Fit(f, s[1..], used + |f(s[0])|, cap)
  }

  /** Greedy is best: a prefix fits with its terminator exactly when it is no longer than the one taken. */
  lemma {:induction false} FitIsLongestPrefix<S, T>(f: S -> seq<T>, s: seq<S>, used: nat, cap: nat, k: nat)
    requires used + 1 <= cap && k <= |s|
    ensures used + |FlatMap(f, s[..k])| + 1 <= cap <==> k <= Fit(f, s, used, cap)
  {
    if k > 0 {
      assert s[..k][1..] == s[1..][..k - 1];
      if used + |f(s[0])| + 1 <= cap {
        FitIsLongestPrefix(f, s[1..], used + |f(s[0])|, cap, k - 1);
      }
    }
  }

  /** The number of characters a truncating count pass takes: it tests the room with DWORD sums. */
  function FitWrapped<S, T>(f: S -> seq<T>, s: seq<S>, used: nat, cap: nat): (k: nat)
    ensures k <= |s|
  {
    if s == [] || Over(used + |f(s[0])|, cap) then 0 else 1 + FitWrapped(f, s[1..], used + |f(s[0])|, cap)
  }

  lemma FlatMapOfPrefix<S, T>(f: S -> seq<T>, s: seq<S>, m: nat)
    requires 0 < m <= |s|
    ensures FlatMap(f, s[..m]) == f(s[0]) + FlatMap(f, s[1..][..m - 1])
  {
    assert s[..m][1..] == s[1..][..m - 1];
  }

  /** The pass takes what fits exactly when the sum for the first character that does not fit is still a DWORD. */
  lemma {:induction false} FitWrappedIff<S, T>(f: S -> seq<T>, s: seq<S>, used: nat, cap: nat)
    requires used + 1 <= cap <= 0xffff_ffff && forall x :: x in s ==> |f(x)| <= 6
    ensures var m := Fit(f, s, used, cap);
            && m <= FitWrapped(f, s, used, cap)
            && (FitWrapped(f, s, used, cap) == m <==>
                  m == |s| || used + |FlatMap(f, s[..m])| + |f(s[m])| < 0x1_0000_0000)
  {
    hide Over;
    if |s| > 0 {
      var x, m := used + |f(s[0])|, Fit(f, s, used, cap);
      assert s[0] in s;
      OverOrNot(used, |f(s[0])|, cap);
      if x + 1 <= cap {
        assert forall y :: y in s[1..] ==> y in s;
        FitWrappedIff(f, s[1..], x, cap);
        FlatMapOfPrefix(f, s, m);
      } else {
        assert s[..0] == [];
      }
    }
  }

  /** No sum of a text that expands to less than 4 GB wraps. */
  lemma FitWrappedWhenSmall<S, T>(f: S -> seq<T>, s: seq<S>, cap: nat)
    requires 1 <= cap <= 0xffff_ffff && (forall x :: x in s ==> |f(x)| <= 6) && |FlatMap(f, s)| < 0x1_0000_0000
    ensures FitWrapped(f, s, 0, cap) == Fit(f, s, 0, cap)
  {
    var m := Fit(f, s, 0, cap);
    FitWrappedIff(f, s, 0, cap);
    if m < |s| {
      FlatMapAt(f, s, m);
      FlatMapSplit(f, s, m + 1);
    }
  }

  /** One step of a count loop that has taken `s[..i]`. */
  lemma {:induction false} FitStep<S, T>(f: S -> seq<T>, s: seq<S>, used: nat, cap: nat, i: nat)
    requires i < |s| && i <= FitWrapped(f, s, used, cap)
    ensures i < FitWrapped(f, s, used, cap) <==> !Over(used + |FlatMap(f, s[..i + 1])|, cap)
  {
    hide Over;
    if i == 0 {
      assert s[..1] == [s[0]];
      assert FlatMap(f, s[..1]) == f(s[0]) + FlatMap(f, []);
    } else {
      assert s[..i + 1][1..] == s[1..][..i];
      FitStep(f, s[1..], used + |f(s[0])|, cap, i - 1);
    }
  }

  /** A count loop that has taken `done` and looks at `next`: what it adds, and when it must stop. */
  lemma CountStep<S, T>(f: S -> seq<T>, all: seq<S>, done: seq<S>, next: S, cap: nat)
    requires |done| < |all| && all[..|done|] == done && all[|done|] == next
    ensures FlatMap(f, done + [next]) == FlatMap(f, done) + f(next)
    ensures |done| <= FitWrapped(f, all, 0, cap) ==>
              (|done| < FitWrapped(f, all, 0, cap) <==> !Over(|FlatMap(f, done)| + |f(next)|, cap))
  {
    hide Over;
    assert all[..|done| + 1] == done + [next];
    FlatMapAt(f, all, |done|);
    if |done| <= FitWrapped(f, all, 0, cap) { FitStep(f, all, 0, cap, |done|); }
  }

  // ---------------------------------------------------------------- flags and placement

  const FLAG_ALLOC: bv32 := 0x0001
  const FLAG_TRUNCATE: bv32 := 0x0002
  const FLAG_TRUNCATE_ONFAIL_NULLSTR: bv32 := 0x0006
  const FLAG_STR_BUFONLY: bv32 := 0x0008
  const FLAG_BAD_UTF8CP_SOFTFAIL: bv32 := 0x0010

  predicate Has(flags: bv32, flag: bv32) { flags & flag != 0 }

  datatype Option<T> = None | Some(value: T)

  datatype Placement = LengthOnly | Refused | NoRoom | InBuffer | InHeap

  /**
   Where a result of `need` cells of the caller's buffer goes; `heapOk` tells whether LocalAlloc succeeds. The
   converters to JSON turn down a size that has wrapped to 0; the sizes of the others are never 0.
   */
  function Place(flags: bv32, wantStr: bool, hasBuffer: bool, room: nat, heapOk: bool, need: nat): Placement {
    if !wantStr && !Has(flags, FLAG_STR_BUFONLY) then LengthOnly
    else if !wantStr && Has(flags, FLAG_ALLOC) then Refused
    else if need == 0 || (!Has(flags, FLAG_ALLOC) && (!hasBuffer || room < need)) then NoRoom
    else if hasBuffer && room >= need then InBuffer
    else if heapOk then InHeap else NoRoom
  }

  ghost function Cells<T>(p: array?<T>): set<object> { if p == null then {} else {p} }

  twostate predicate Untouched<T>(p: array?<T>)
    reads p
  {
    p != null ==> p[..] == old(p[..])
  }

  /** The result, NUL included, is at the front of `p` and the rest of `p` is as it was. */
  twostate predicate Holds<T>(p: array<T>, text: seq<T>, zero: T)
    reads p
  {
    && |text| < p.Length
    && p[..|text| + 1] == text + [zero]
    && p[|text| + 1..] == old(p[|text| + 1..])
  }

  /** The shared failure exit: only the exact flag value 6 turns a failure into an empty string. */
  twostate predicate Failed(dst: array?<bv8>, cbBuffer: nat, wantStr: bool, flags: bv32, cbSoFar: nat,
                            ok: bool, new usz: array?<bv8>, cb: nat)
    reads dst
  {
    !ok &&
    if flags == FLAG_TRUNCATE_ONFAIL_NULLSTR && dst != null && 0 < cbBuffer <= dst.Length
    then usz == (if wantStr then dst else null) && cb == 1 && Holds(dst, [], 0)
    else usz == null && cb == cbSoFar && Untouched(dst)
  }

  /** The answers that need no fill. */
  twostate predicate Answered(place: Placement, dst: array?<bv8>, cbBuffer: nat, wantStr: bool, flags: bv32, need: nat,
                              ok: bool, new usz: array?<bv8>, cb: nat)
    reads dst
  {
    match place
    case LengthOnly => ok && usz == null && cb == need && Untouched(dst)
    case Refused => !ok && usz == null && cb == need && Untouched(dst)
    case _ => place.NoRoom? && Failed(dst, cbBuffer, wantStr, flags, need, ok, usz, cb)
  }

  /**
   The whole observable answer of a converter to UTF-8, JSON or CSV whose count pass accepted `bytes`
   (`None`: the count pass failed).
   */
  twostate predicate Replied(dst: array?<bv8>, cbBuffer: nat, wantStr: bool, flags: bv32, heapOk: bool,
                             bytes: Option<seq<bv8>>, ok: bool, new usz: array?<bv8>, cb: nat)
    reads dst, usz
  {
    match bytes
    case None => Failed(dst, cbBuffer, wantStr, flags, 0, ok, usz, cb)
    case Some(text) =>
      var place := Place(flags, wantStr, dst != null, cbBuffer, heapOk, |text| + 1);
      if place.InBuffer? then
        && ok && cb == |text| + 1 && usz == (if wantStr then dst else null)
        && dst != null && Holds(dst, text, 0)
      else if place.InHeap? then
        ok && cb == |text| + 1 && usz != null && fresh(usz) && usz[..] == text + [0] && Untouched(dst)
      else
        Answered(place, dst, cbBuffer, wantStr, flags, |text| + 1, ok, usz, cb)
  }

  /**
   The same for a converter whose byte count may exceed a DWORD. It then goes by the low 32 bits of the size: it
   tells the caller a wrong size, fails, or gets a buffer that is too small and writes outside it (`stray`).
   */
  twostate predicate RepliedWrapped(dst: array?<bv8>, cbBuffer: nat, wantStr: bool, flags: bv32, heapOk: bool,
                                    bytes: Option<seq<bv8>>, ok: bool, new usz: array?<bv8>, cb: nat, stray: bool)
    reads dst, usz
  {
    if bytes.None? || |bytes.value| + 1 < 0x1_0000_0000 then
      !stray && Replied(dst, cbBuffer, wantStr, flags, heapOk, bytes, ok, usz, cb)
    else
      var need := Wrapped(|bytes.value| + 1);
      var place := Place(flags, wantStr, dst != null, cbBuffer, heapOk, need);
      && stray == (place.InBuffer? || place.InHeap?)
      && (!stray ==> Answered(place, dst, cbBuffer, wantStr, flags, need, ok, usz, cb))
  }

  method FailTail(dst: array?<bv8>, cbBuffer: dword, wantStr: bool, flags: bv32, cbSoFar: nat)
    returns (usz: array?<bv8>, cb: nat)
    requires dst != null ==> cbBuffer <= dst.Length
    modifies Cells(dst)
    ensures Failed(dst, cbBuffer, wantStr, flags, cbSoFar, false, usz, cb)
  {
    usz, cb := null, cbSoFar;
    if flags ^ FLAG_TRUNCATE_ONFAIL_NULLSTR == 0 && dst != null && cbBuffer != 0 {
      if wantStr { usz := dst; }
      cb := 1;
      dst[0] := 0;
    }
  }

  /** The middle part of every converter: `buf` is the buffer to fill, or null when the answer is already known. */
  method Prepare(dst: array?<bv8>, cbBuffer: dword, wantStr: bool, flags: bv32, heapOk: bool, need: nat)
    returns (buf: array?<bv8>, ok: bool, usz: array?<bv8>, cb: nat)
    requires dst != null ==> cbBuffer <= dst.Length
    modifies Cells(dst)
    ensures var place := Place(flags, wantStr, dst != null, cbBuffer, heapOk, need);
            if place.InBuffer? then buf == dst && dst != null && need <= cbBuffer && Untouched(dst)
            else if place.InHeap? then wantStr && buf != null && fresh(buf) && buf.Length == need && Untouched(dst)
            else buf == null && Answered(place, dst, cbBuffer, wantStr, flags, need, ok, usz, cb)
    ensures buf != null ==> ok && cb == need && usz == (if wantStr then buf else null)
  {
    buf, ok, usz, cb := null, true, null, need;
    if !wantStr {
      if !Has(flags, FLAG_STR_BUFONLY) { return; }
      if Has(flags, FLAG_ALLOC) {
        ok := false;
        return;
      }
    }
    if need == 0 || (!Has(flags, FLAG_ALLOC) && (dst == null || cbBuffer < need)) {
      ok := false;
      usz, cb := FailTail(dst, cbBuffer, wantStr, flags, need);
      return;
    }
    if dst != null && cbBuffer >= need {
      buf := dst;
    } else if heapOk {
      buf := new bv8[need];
    } else {
      ok := false;
      usz, cb := FailTail(dst, cbBuffer, wantStr, flags, need);
      return;
    }
    if wantStr { usz := buf; }
  }

  // What a caller can tell of a call beforehand.

  /** The caller wants the result stored: by asking for a pointer to it, or for its own buffer only. */
  predicate Asks(flags: bv32, wantStr: bool) { wantStr || flags & 0x0008 != 0 }

  /** The caller gives a buffer in which `need` cells have room. */
  predicate Suffices(hasBuffer: bool, room: nat, need: nat) { hasBuffer && need <= room }

  predicate Allocates(flags: bv32) { flags & 0x0001 != 0 }

  /** The placement of a result of `need` cells, one outcome at a time; a size that has wrapped to 0 has no place. */
  lemma PlaceDecides(flags: bv32, wantStr: bool, hasBuffer: bool, room: nat, heapOk: bool, need: nat)
    ensures var place := Place(flags, wantStr, hasBuffer, room, heapOk, need);
            && (place.LengthOnly? <==> !Asks(flags, wantStr))
            && (place.Refused? <==> Asks(flags, wantStr) && !wantStr && Allocates(flags))
            && (place.InBuffer? <==>
                  && Asks(flags, wantStr) && (wantStr || !Allocates(flags))
                  && need > 0 && Suffices(hasBuffer, room, need))
            && (place.InHeap? <==>
                  && wantStr && Allocates(flags)
                  && need > 0 && !Suffices(hasBuffer, room, need) && heapOk)
            && (place.NoRoom? <==>
                  && Asks(flags, wantStr) && (wantStr || !Allocates(flags))
                  && (need == 0 || (!Suffices(hasBuffer, room, need) && (!Allocates(flags) || !heapOk))))
  {
  }

  /** What the caller of a converter to bytes sees, by what it has passed. */
  twostate lemma CallerSees(dst: array?<bv8>, cbBuffer: nat, wantStr: bool, flags: bv32, heapOk: bool,
                            text: seq<bv8>, ok: bool, new usz: array?<bv8>, cb: nat)
    requires Replied(dst, cbBuffer, wantStr, flags, heapOk, Some(text), ok, usz, cb)
    ensures !Asks(flags, wantStr) ==> ok && cb == |text| + 1 && usz == null && Untouched(dst)
    ensures Asks(flags, wantStr) && !wantStr && Allocates(flags) ==> !ok && usz == null && Untouched(dst)
    ensures Asks(flags, wantStr) && Suffices(dst != null, cbBuffer, |text| + 1) && (wantStr || !Allocates(flags)) ==>
              && ok && cb == |text| + 1 && usz == (if wantStr then dst else null)
              && |text| < dst.Length && dst[..|text| + 1] == text + [0] && dst[|text| + 1..] == old(dst[|text| + 1..])
    ensures wantStr && Allocates(flags) && !Suffices(dst != null, cbBuffer, |text| + 1) && heapOk ==>
              ok && cb == |text| + 1 && usz != null && fresh(usz) && usz[..] == text + [0] && Untouched(dst)
    ensures !Suffices(dst != null, cbBuffer, |text| + 1)
            && ((Asks(flags, wantStr) && !Allocates(flags)) || (wantStr && Allocates(flags) && !heapOk)) ==>
              && !ok
              && if flags == 6 && dst != null && 0 < cbBuffer <= dst.Length then
                   cb == 1 && usz == (if wantStr then dst else null) && dst[0] == 0 && dst[1..] == old(dst[1..])
                 else
                   usz == null && cb == |text| + 1 && Untouched(dst)
  {
    hide Place;
    PlaceDecides(flags, wantStr, dst != null, cbBuffer, heapOk, |text| + 1);
  }

  /** And when the count pass has failed. */
  twostate lemma CallerSeesFailure(dst: array?<bv8>, cbBuffer: nat, wantStr: bool, flags: bv32, heapOk: bool,
                                   ok: bool, new usz: array?<bv8>, cb: nat)
    requires Replied(dst, cbBuffer, wantStr, flags, heapOk, None, ok, usz, cb)
    ensures !ok
    ensures if flags == 6 && dst != null && 0 < cbBuffer <= dst.Length then
              cb == 1 && usz == (if wantStr then dst else null) && dst[0] == 0 && dst[1..] == old(dst[1..])
            else usz == null && cb == 0 && Untouched(dst)
  {
  }

  /** At most 2^30 units of a text are read, and the flags of CHARUTIL_FLAG are single bits. */
  lemma LimitsAndFlags(cch: dword, flags: bv32)
    ensures Limit(cch) == if cch > 0x4000_0000 then 0x4000_0000 else cch
    ensures Has(flags, FLAG_TRUNCATE) <==> flags & 0x0002 != 0
    ensures Has(flags, FLAG_BAD_UTF8CP_SOFTFAIL) <==> flags & 0x0010 != 0
  {
  }

  // ---------------------------------------------------------------- backward fill

  /** `buf` with `part` written over it at `at`. */
  function Patched<T>(buf: seq<T>, at: nat, part: seq<T>): seq<T>
    requires at + |part| <= |buf|
  {
    buf[..at] + part + buf[at + |part|..]
  }

  /** Stores the cells of one character, the last one at `j`, and moves the write cursor below them. */
  method PutBack<T>(buf: array<T>, j: dword, part: seq<T>) returns (below: dword)
    requires 1 <= |part| <= 6 && |part| <= j + 1 <= buf.Length
    modifies buf
    ensures below == Minus(j, |part|)
    ensures buf[..] == Patched(old(buf[..]), j + 1 - |part|, part)
  {
    var n, low := |part|, j + 1 - |part|;
    below := j;
    while n > 0
      invariant 0 <= n <= |part| && below == Minus(j, |part| - n)
      invariant forall q :: 0 <= q < buf.Length ==> buf[q] == if low + n <= q <= j then part[q - low] else old(buf[q])
    {
      n := n - 1;
      buf[below] := part[n];
      below := Minus(below, 1);
    }
  }

  /** A fill that has produced `tail` so far; `n` more cells are owed and the cells from `end` on are untouched. */
  ghost predicate Filling<T>(buf: seq<T>, before: seq<T>, n: nat, tail: seq<T>, end: nat) {
    && |buf| == |before| && n + |tail| == end < |buf|
    && buf[n..end] == tail && buf[end..] == before[end..]
  }

  lemma FillingStarts<T>(buf: seq<T>, end: nat)
    requires end < |buf|
    ensures Filling(buf, buf, end, [], end)
  {
  }

  lemma FillingDone<T>(buf: seq<T>, before: seq<T>, tail: seq<T>, end: nat, zero: T)
    requires Filling(buf, before, 0, tail, end)
    ensures |tail| == end < |buf| == |before|
    ensures buf[end := zero][..end + 1] == tail + [zero] && buf[end := zero][end + 1..] == before[end + 1..]
  {
    assert buf[end..][1..] == before[end..][1..];
  }

  lemma FillingStep<T>(buf: seq<T>, before: seq<T>, n: nat, part: seq<T>, tail: seq<T>, end: nat, after: seq<T>)
    requires Filling(buf, before, n + |part|, tail, end) && after == Patched(buf, n, part)
    ensures Filling(after, before, n, part + tail, end)
  {
  }
}
