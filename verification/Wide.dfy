/** CharUtil_WtoU and CharUtil_UtoW of vmm/charutil.c, and the passes that CharUtil_WtoJ shares with the former. */
module Wide {
  import opened Transcode
  import opened Unicode
  import opened CountPass
  import opened FillPass

  // ---------------------------------------------------------------- UTF-16 to UTF-8

  function Emit8(c: Char16): seq<bv8> { Utf8(CodePoint16(c)) }

  /**
   The characters a count pass over UTF-16 accepts. `soft` stands for CHARUTIL_FLAG_BAD_UTF8CP_SOFTFAIL: after
   16 units an ill-formed character ends the text instead of failing it.
   */
  function AcceptedW(f: Char16 -> seq<bv8>, t: seq<bv16>, lim: nat, cbBuffer: nat, flags: bv32,
                     soft: bool): Option<seq<Char16>> {
    var p := Parse16(t, lim);
    Accepted(f, p, 4, Has(flags, FLAG_TRUNCATE), cbBuffer, soft && |FlatMap(Units, p.chars)| >= 0x10)
  }

  lemma PairIsLarge(first: bv16, second: bv16)
    requires Surrogate(first) && Surrogate(second)
    ensures PairPoint(first, second) > 0xffff
  {
  }

  /** What the count pass finds at `at`: the next character is `step` units long and becomes `grow` bytes. */
  lemma LookAt(f: Char16 -> seq<bv8>, t: seq<bv16>, lim: nat, truncate: bool, cap: nat,
               all: Parsed<Char16>, rest: Parsed<Char16>, at: nat, done: seq<Char16>, size: nat, soft: bool)
    returns (next: Char16, after: Parsed<Char16>, step: nat, grow: nat, stuck: bool)
    requires at < |t| <= lim && all == Parse16(t, lim) && rest == Parse16(t[at..], lim - at)
    requires Counting(f, all, rest, truncate, cap, done, size) && FlatMap(Units, done) == t[..at]
    ensures step == (if Surrogate(t[at]) then 2 else 1) && size == |FlatMap(f, done)|
    ensures stuck == (Surrogate(t[at]) && (at + 1 >= lim || at + 1 >= |t| || !Surrogate(t[at + 1])))
    ensures if stuck then
              && FlatMap(Units, all.chars) == t[..at]
              && Accepted(f, all, 4, truncate, cap, soft) ==
                   if at + 1 < lim && !soft && (!truncate || !Over(size + 4, cap)) then None else Some(done)
            else
              && at + step <= |t| && grow == |f(next)| && Framed16(next)
              && next == (if Surrogate(t[at]) then Pair(t[at], t[at + 1]) else Unit(t[at]))
              && after == Parse16(t[at + step..], lim - (at + step))
              && FlatMap(Units, done + [next]) == t[..at + step]
              && (if truncate && Over(size + grow, cap) then
                    Accepted(f, all, 4, truncate, cap, soft) == Some(done)
                  else
                    Counting(f, all, after, truncate, cap, done + [next], size + grow))
  {
    hide Over, Accepted, FlatMap, Surrogate, Parse16;
    SizeOf(f, all, rest, truncate, cap, done, size);
    step := if Surrogate(t[at]) then 2 else 1;
    stuck := |rest.chars| == 0;
    Step16(t, lim, at);
    if |rest.chars| > 0 {
      next := rest.chars[0];
      after := Parse16(t[at + step..], lim - (at + step));
      grow := |f(next)|;
      Advance(f, all, rest, after, truncate, cap, done, size, next, 4, soft);
      FlatMapConcat(Units, done, [next]);
      FlatMapOne(Units, next);
    } else {
      Exhausted(f, all, rest, truncate, cap, done, size, 4, soft);
      assert all.chars == done;
      next, after, grow := Unit(0), rest, 0;
    }
  }

  lemma LookAtW(f: Char16 -> seq<bv8>, t: seq<bv16>, lim: nat, cap: nat, flags: bv32, soft: bool,
                rest: Parsed<Char16>, at: nat, done: seq<Char16>, size: nat)
    returns (next: Char16, after: Parsed<Char16>, step: nat, grow: nat, stuck: bool)
    requires at <= |t| <= lim && rest == Parse16(t[at..], lim - at) && FlatMap(Units, done) == t[..at]
    requires Counting(f, Parse16(t, lim), rest, Has(flags, FLAG_TRUNCATE), cap, done, size)
    ensures size == |FlatMap(f, done)|
    ensures at == |t| ==> AcceptedW(f, t, lim, cap, flags, soft) == Some(done)
    ensures at < |t| ==>
              && stuck == (Surrogate(t[at]) && (at + 1 >= lim || at + 1 >= |t| || !Surrogate(t[at + 1])))
              && step == (if Surrogate(t[at]) then 2 else 1)
              && (stuck ==> grow == 4)
              && (!stuck ==> at + step <= |t| && grow == |f(next)| && Framed16(next)
                             && next == (if Surrogate(t[at]) then Pair(t[at], t[at + 1]) else Unit(t[at])))
    ensures at < |t| && Has(flags, FLAG_TRUNCATE) && Over(size + grow, cap) ==>
              AcceptedW(f, t, lim, cap, flags, soft) == Some(done)
    ensures at < |t| && stuck && (at + 1 >= lim || (at >= 0x10 && soft)) ==>
              AcceptedW(f, t, lim, cap, flags, soft) == Some(done)
    ensures at < |t| && stuck && at + 1 < lim && !(at >= 0x10 && soft)
            && (!Has(flags, FLAG_TRUNCATE) || !Over(size + grow, cap)) ==>
              AcceptedW(f, t, lim, cap, flags, soft) == None
    ensures at < |t| && !stuck && (!Has(flags, FLAG_TRUNCATE) || !Over(size + grow, cap)) ==>
              && after == Parse16(t[at + step..], lim - (at + step)) && FlatMap(Units, done + [next]) == t[..at + step]
              && Counting(f, Parse16(t, lim), after, Has(flags, FLAG_TRUNCATE), cap, done + [next], size + grow)
  {
    hide Counting, Accepted, FlatMap, Surrogate, Over;
    var all := Parse16(t, lim);
    var forgiven := soft && |FlatMap(Units, all.chars)| >= 0x10;
    if at == |t| {
      Exhausted(f, all, rest, Has(flags, FLAG_TRUNCATE), cap, done, size, 4, forgiven);
      next, after, step, grow, stuck := Unit(0), rest, 0, 0, true;
    } else {
      next, after, step, grow, stuck := LookAt(f, t, lim, Has(flags, FLAG_TRUNCATE), cap, all, rest, at, done, size,
                                               forgiven);
      if stuck { grow := 4; }
    }
  }

  /** What the count pass of WtoU adds for a single unit beyond one byte. */
  function GrowU(u: bv16): nat { if u > 0x7ff then 2 else if u > 0x7f then 1 else 0 }

  lemma UnitGrows(u: bv16)
    requires !Surrogate(u)
    ensures |Emit8(Unit(u))| == 1 + GrowU(u)
  {
  }

  lemma Emit8Grows()
    ensures Growing(Emit8, GrowU)
  {
    forall u: bv16 | !Surrogate(u) { UnitGrows(u); }
    forall a: bv16, b: bv16 | Surrogate(a) && Surrogate(b)
      ensures |Emit8(Pair(a, b))| == 4
    {
      PairIsLarge(a, b);
    }
  }

  /** The count pass adds up what the characters become: `grow` beyond one byte for a unit, four bytes for a pair. */
  ghost predicate Growing(f: Char16 -> seq<bv8>, grow: bv16 -> nat) {
    && (forall u: bv16 :: !Surrogate(u) ==> |f(Unit(u))| == 1 + grow(u) <= 6)
    && (forall a: bv16, b: bv16 :: Surrogate(a) && Surrogate(b) ==> |f(Pair(a, b))| == 4)
  }

  /**
   The count pass; `cbx` counts, as a DWORD, the bytes beyond one for each unit. The code has no `size`, the sum
   that does not wrap; it is there to tell when the code's sum is another.
   */
  method CountWide(f: Char16 -> seq<bv8>, grow: bv16 -> nat, pus: array<bv16>, lim: dword, cbBuffer: dword, flags: bv32,
                   soft: bool)
    returns (ok: bool, cbw: dword, cbx: dword, size: nat, ghost done: seq<Char16>)
    requires Growing(f, grow) && lim <= CONVERT_MAXSIZE && Terminated(pus[..], 0, lim)
    ensures var t := pus[..Strnlen(pus[..], 0, lim)]; var cs := AcceptedW(f, t, lim, cbBuffer, flags, soft);
            && ok == cs.Some?
            && (ok ==> cbw <= |t| && FlatMap(Units, cs.value) == t[..cbw]
                       && size == |FlatMap(f, cs.value)| && AddUp(cbw, cbx, size))
    ensures ok ==> AcceptedW(f, pus[..Strnlen(pus[..], 0, lim)], lim, cbBuffer, flags, soft) == Some(done)
  {
    hide Counting, AcceptedW, Parse16, FlatMap, AddUp, Over, Wrapped;
    var truncate := Has(flags, FLAG_TRUNCATE);
    ghost var n := Strnlen(pus[..], 0, lim);
    ghost var t := pus[..n];
    assert n == lim <= pus.Length || (n < pus.Length && pus[n] == 0);
    ghost var all := Parse16(t, lim);
    cbw, cbx, size, done := 0, 0, 0, [];
    ghost var rest, at := all, 0;
    CountingStarts(f, Units, all, truncate, cbBuffer);
    assert t[0..] == t;
    AddUpStarts();
    while cbw < lim && pus[cbw] != 0
      invariant cbw == at <= |t| && AddUp(cbw, cbx, size)
      invariant FlatMap(Units, done) == t[..at] && rest == Parse16(t[at..], lim - at)
      invariant Counting(f, all, rest, truncate, cbBuffer, done, size)
      decreases lim - cbw
    {
      var c := pus[cbw];
      ghost var before := size;
      ghost var next, after, step, more, stuck := LookAtW(f, t, lim, cbBuffer, flags, soft, rest, at, done, size);
      assert t[cbw] == c && stuck == (Surrogate(c) && (cbw + 1 >= lim || !Surrogate(pus[cbw + 1])));
      if c >= 0xD800 && c <= 0xDFFF {
        AddUpMore(cbw, cbx, size, 2, 2, cbBuffer);
        if truncate && Wrapped(cbw + cbx + (1 + 2 + 1)) >= cbBuffer { break; }
        if cbw + 1 >= lim { break; }
        if pus[cbw + 1] < 0xD800 || pus[cbw + 1] > 0xDFFF {
          if cbw >= 0x10 && soft { break; }
          return false, 0, 0, 0, [];
        }
        cbx := Wrapped(cbx + 2);
        cbw := cbw + 1;
        size := size + 4;
      } else {
        AddUpMore(cbw, cbx, size, 1, grow(c), cbBuffer);
        if truncate && Wrapped(cbw + cbx + (1 + grow(c))) >= cbBuffer { break; }
        cbx := Wrapped(cbx + grow(c));
        size := size + (1 + grow(c));
      }
      cbw := cbw + 1;
      assert !stuck && cbw == at + step && size == before + more;
      done, rest, at := done + [next], after, at + step;
    }
    ghost var _, _, _, _, _ := LookAtW(f, t, lim, cbBuffer, flags, soft, rest, at, done, size);
    ok := true;
  }

  /** The bytes of a character as the fill loops compute them. */
  function Bytes2(c: bv32): (bytes: seq<bv8>)
    ensures |bytes| == 2
  {
    [0xc0 | ((c >> 6) & 0x3f) as bv8, 0x80 | (c & 0x3f) as bv8]
  }
  function Bytes3(c: bv32): (bytes: seq<bv8>)
    ensures |bytes| == 3
  {
    [0xe0 | ((c >> 12) & 0x1f) as bv8, 0x80 | ((c >> 6) & 0x3f) as bv8, 0x80 | (c & 0x3f) as bv8]
  }
  function Bytes4(c: bv32): (bytes: seq<bv8>)
    ensures |bytes| == 4
  {
    [0xf0 | ((c >> 18) & 0x0f) as bv8, 0x80 | ((c >> 12) & 0x3f) as bv8, 0x80 | ((c >> 6) & 0x3f) as bv8,
     0x80 | (c & 0x3f) as bv8]
  }

  lemma UnitBytes(c: bv32)
    ensures c <= 0x7f ==> Utf8(c) == [(c & 0xff) as bv8]
    ensures 0x7f < c <= 0x7ff ==> Utf8(c) == Bytes2(c)
    ensures 0x7ff < c <= 0xffff ==> Utf8(c) == Bytes3(c)
    ensures 0xffff < c ==> Utf8(c) == Bytes4(c)
  {
    assert 0x7f < c <= 0x7ff ==> (c >> 6) & 0x3f == (c >> 6) & 0x1f;
    assert 0x7ff < c <= 0xffff ==> (c >> 12) & 0x1f == (c >> 12) & 0x0f;
  }

  /** What the fill stores for a unit `c` that has `prev` before it. */
  function FillBytes(prev: bv16, c: bv16): (bytes: seq<bv8>)
    ensures 1 <= |bytes| <= 4
  {
    if c > 0x7ff then if c >= 0xd800 && c <= 0xdfff then Bytes4(PairPoint(prev, c)) else Bytes3(Widen(c))
    else if c > 0x7f then Bytes2(Widen(c))
    else [(Widen(c) & 0xff) as bv8]
  }

  lemma UnitFill(u: bv16, prev: bv16)
    requires !Surrogate(u)
    ensures Emit8(Unit(u)) == FillBytes(prev, u)
  {
    UnitBytes(Widen(u));
    hide Utf8, Bytes2, Bytes3, Bytes4, PairPoint;
  }

  lemma PairFill(first: bv16, second: bv16)
    requires Surrogate(first) && Surrogate(second)
    ensures Emit8(Pair(first, second)) == FillBytes(first, second)
  {
    UnitBytes(PairPoint(first, second));
    PairIsLarge(first, second);
    hide Utf8, Bytes2, Bytes3, Bytes4, PairPoint;
  }

  /** `g` is how a fill loop finds the bytes of a character, knowing its last unit and the one before it. */
  ghost predicate FilledBy(f: Char16 -> seq<bv8>, g: (bv16, bv16) -> seq<bv8>) {
    && (forall u: bv16 :: !Surrogate(u) ==> f(Unit(u)) == g(0, u))
    && (forall a: bv16, b: bv16 :: Surrogate(a) && Surrogate(b) ==> f(Pair(a, b)) == g(a, b))
    && (forall a: bv16, b: bv16 :: 1 <= |g(a, b)| <= 6)
  }

  lemma Emit8Filled()
    ensures FilledBy(Emit8, FillBytes)
  {
    hide Emit8, FillBytes;
    forall u: bv16 | !Surrogate(u) { UnitFill(u, 0); }
    forall a: bv16, b: bv16 | Surrogate(a) && Surrogate(b) { PairFill(a, b); }
  }

  /** Reading a character backwards: a surrogate at its end is the second half of a pair. */
  lemma FromItsEnd(f: Char16 -> seq<bv8>, g: (bv16, bv16) -> seq<bv8>, c: Char16, units: seq<bv16>)
    requires FilledBy(f, g)
    requires Framed16(c) && |units| >= |Units(c)| && units[|units| - |Units(c)|..] == Units(c)
    ensures var last := units[|units| - 1];
            && (if Surrogate(last) then |Units(c)| == 2 && |units| >= 2 else |Units(c)| == 1)
            && f(c) == g(if Surrogate(last) then units[|units| - 2] else 0, last)
  {
    hide Surrogate;
    var n := |units| - |Units(c)|;
    if c.Unit? {
      assert units[n] == units[n..][0] == c.u;
    } else {
      assert units[n] == units[n..][0] == c.first && units[n + 1] == units[n..][1] == c.second;
    }
  }

  /** The backward fill of WtoU and WtoJ. */
  method FillWide(f: Char16 -> seq<bv8>, g: (bv16, bv16) -> seq<bv8>, pus: array<bv16>, usz: array<bv8>,
                  cbw: dword, cbu: dword, ghost cs: seq<Char16>)
    requires FilledBy(f, g) && AllFramed16(cs) && FlatMap(Units, cs) <= pus[..]
    requires cbw == |FlatMap(Units, cs)| + 1 && cbw <= CONVERT_MAXSIZE + 1
    requires cbu == |FlatMap(f, cs)| + 1 && cbu <= usz.Length
    modifies usz
    ensures Holds(usz, FlatMap(f, cs), 0)
  {
    hide Owed, FlatMap, Patched;
    var i, j := Minus(cbw, 2), Minus(cbu, 2);
    ghost var k, before := |cs|, usz[..];
    UnitsNonEmpty(cs);
    OwedStarts(Units, f, pus[..], cs, cbw, cbu, usz[..]);
    while i < 0x7fffffff
      invariant k >= 0 && Owed(Units, f, pus[..], cs, k, i, j, usz[..], before, cbu - 1)
      decreases k
    {
      OwedEnds(Units, f, pus[..], cs, k, i, j, usz[..], before, cbu - 1, 0);
      ghost var last, a, p := NextChar(Units, f, pus[..], cs, k, i, j, usz[..], before, cbu - 1);
      assert last in cs;
      FromItsEnd(f, g, last, pus[..i + 1]);
      var c, first := pus[i], 0;
      i := Minus(i, 1);
      if c >= 0xD800 && c <= 0xDFFF {
        first := pus[i];
        i := Minus(i, 1);
      }
      j := PutBack(usz, j, g(first, c));
      k := k - 1;
    }
    OwedEnds(Units, f, pus[..], cs, k, i, j, usz[..], before, cbu - 1, 0);
    usz[cbu - 1] := 0;
  }

  lemma UnitsNonEmpty(cs: seq<Char16>)
    ensures forall c :: c in cs ==> |Units(c)| >= 1
  {
  }

  lemma AcceptedWFramed(f: Char16 -> seq<bv8>, t: seq<bv16>, lim: nat, cbBuffer: nat, flags: bv32, soft: bool)
    ensures var cs := AcceptedW(f, t, lim, cbBuffer, flags, soft); cs.Some? ==> AllFramed16(cs.value)
  {
    Parse16Consumes(t, lim);
  }

  /** The bytes a converter from UTF-16 produces, NUL excluded; `None` when it fails before looking for a buffer. */
  function WideText(f: Char16 -> seq<bv8>, t: seq<bv16>, lim: nat, cbBuffer: nat, flags: bv32,
                    soft: bool): Option<seq<bv8>> {
    if Has(flags, FLAG_TRUNCATE) && (cbBuffer == 0 || Has(flags, FLAG_ALLOC)) then None
    else match AcceptedW(f, t, lim, cbBuffer, flags, soft)
         case None => None
         case Some(cs) => Some(FlatMap(f, cs))
  }

  function WtoUText(t: seq<bv16>, lim: nat, cbBuffer: nat, flags: bv32): Option<seq<bv8>> {
    WideText(Emit8, t, lim, cbBuffer, flags, Has(flags, FLAG_BAD_UTF8CP_SOFTFAIL))
  }

  /** The middle and the end of WtoU and WtoJ: `cbu` is the size as the DWORD counters have it. */
  method DeliverWide(f: Char16 -> seq<bv8>, g: (bv16, bv16) -> seq<bv8>, pus: array<bv16>, dst: array?<bv8>,
                     cbBuffer: dword, wantStr: bool, flags: bv32, heapOk: bool, cbw: dword, cbu: dword, size: nat,
                     ghost cs: seq<Char16>)
    returns (ok: bool, usz: array?<bv8>, cb: nat, stray: bool)
    requires FilledBy(f, g) && (dst != null ==> cbBuffer <= dst.Length) && AllFramed16(cs)
             && FlatMap(Units, cs) <= pus[..]
    requires cbw == |FlatMap(Units, cs)| + 1 && cbw <= CONVERT_MAXSIZE + 1 && size == |FlatMap(f, cs)|
             && cbu == Wrapped(size + 1)
    modifies Cells(dst)
    ensures RepliedWrapped(dst, cbBuffer, wantStr, flags, heapOk, Some(FlatMap(f, cs)), ok, usz, cb, stray)
  {
    hide FlatMap, Place, Has, FilledBy, AllFramed16, Units;
    var buf;
    buf, ok, usz, cb := Prepare(dst, cbBuffer, wantStr, flags, heapOk, cbu);
    stray := buf != null && size + 1 != cbu;
    if buf != null && !stray {
      FillWide(f, g, pus, buf, cbw, cbu, cs);
    }
  }

  /** The body WtoU and WtoJ share. */
  method ConvertWide(f: Char16 -> seq<bv8>, grow: bv16 -> nat, g: (bv16, bv16) -> seq<bv8>, wsz: array?<bv16>,
                     cch: dword,
                     dst: array?<bv8>, cbBuffer: dword, wantStr: bool, flags: bv32, soft: bool, heapOk: bool)
    returns (ok: bool, usz: array?<bv8>, cbu: nat, stray: bool)
    requires Growing(f, grow) && FilledBy(f, g)
    requires Readable(wsz, 0, cch) && (dst != null ==> cbBuffer <= dst.Length)
    modifies Cells(dst)
    ensures RepliedWrapped(dst, cbBuffer, wantStr, flags, heapOk,
                           WideText(f, old(Text(wsz, 0, cch)), Limit(cch), cbBuffer, flags, soft), ok, usz, cbu, stray)
  {
    hide AcceptedW, FlatMap, Place, Strnlen, Terminated, Parse16, Text, Growing, FilledBy, AddUp, Wrapped;
    stray := false;
    var pus := Source(wsz, 0, cch);
    ghost var t := Text(wsz, 0, cch);
    if Has(flags, FLAG_TRUNCATE) && (cbBuffer == 0 || Has(flags, FLAG_ALLOC)) {
      usz, cbu := FailTail(dst, cbBuffer, wantStr, flags, 0);
      return false, usz, cbu, stray;
    }
    var counted, cbw, cbx, size, cs := CountWide(f, grow, pus, Limit(cch), cbBuffer, flags, soft);
    if !counted {
      usz, cbu := FailTail(dst, cbBuffer, wantStr, flags, 0);
      return false, usz, cbu, stray;
    }
    AcceptedWFramed(f, t, Limit(cch), cbBuffer, flags, soft);
    CountersAreExactIff(cbw, cbx, size);
    assert pus[..cbw] == t[..cbw];
    ok, usz, cbu, stray := DeliverWide(f, g, pus, dst, cbBuffer, wantStr, flags, heapOk, cbw + 1,
                                       Wrapped(cbw as int + 1 + cbx), size, cs);
  }

  lemma WtoUBound(t: seq<bv16>, lim: nat, cbBuffer: nat, flags: bv32, soft: bool)
    requires |t| <= CONVERT_MAXSIZE
    ensures var text := WideText(Emit8, t, lim, cbBuffer, flags, soft); text.Some? ==> |text.value| < 0xffff_ffff
  {
    var p := Parse16(t, lim);
    Parse16Consumes(t, lim);
    AcceptedIsPrefix(Emit8, p, 4, Has(flags, FLAG_TRUNCATE), cbBuffer, soft && |FlatMap(Units, p.chars)| >= 0x10);
    var cs := AcceptedW(Emit8, t, lim, cbBuffer, flags, soft);
    if cs.Some? {
      Expansion(cs.value);
      FlatMapSplit(Units, p.chars, |cs.value|);
    }
  }

  lemma {:induction false} Expansion(cs: seq<Char16>)
    requires AllFramed16(cs)
    ensures |FlatMap(Emit8, cs)| <= 3 * |FlatMap(Units, cs)|
  {
    hide Emit8, Framed16;
    if |cs| > 0 {
      assert cs[0] in cs;
      Emit8Width(cs[0]);
      Expansion(cs[1..]);
    }
  }

  lemma Emit8Width(c: Char16)
    requires Framed16(c)
    ensures |Emit8(c)| <= 3 * |Units(c)|
  {
    if c.Pair? { PairIsLarge(c.first, c.second); }
  }

  method WtoU(wsz: array?<bv16>, cch: dword, dst: array?<bv8>, cbBuffer: dword, wantStr: bool, flags: bv32,
              heapOk: bool)
    returns (ok: bool, usz: array?<bv8>, cbu: nat)
    requires Readable(wsz, 0, cch) && (dst != null ==> cbBuffer <= dst.Length)
    modifies Cells(dst)
    ensures Replied(dst, cbBuffer, wantStr, flags, heapOk,
                    WtoUText(old(Text(wsz, 0, cch)), Limit(cch), cbBuffer, flags), ok, usz, cbu)
  {
    Emit8Grows();
    Emit8Filled();
    var soft := Has(flags, FLAG_BAD_UTF8CP_SOFTFAIL);
    WtoUBound(Text(wsz, 0, cch), Limit(cch), cbBuffer, flags, soft);
    var stray;
    ok, usz, cbu, stray := ConvertWide(Emit8, GrowU, FillBytes, wsz, cch, dst, cbBuffer, wantStr, flags, soft, heapOk);
  }

  // ---------------------------------------------------------------- UTF-8 to UTF-16

  /** What the fill stores for a code point: one unit, or a high surrogate below a low one. */
  function WideOf(ch: bv32): (units: seq<bv16>)
    ensures 1 <= |units| <= 2
  {
    if ch >= 0x10000 then [HighSurrogate(ch), LowSurrogate(ch)] else [OneUnit(ch)]
  }

  function Emit16(c: Char8): seq<bv16> { WideOf(CodePoint8(c)) }

  /** The units the count pass reserves for a character announced as `n` bytes long. */
  function Reserved(n: nat): nat { if n == 4 then 2 else if n == 0 then 0 else 1 }

  /** The cells reserved for a character; the count pass does not look at its value. */
  function Slots(c: Char8): (cells: seq<bv16>)
    ensures |cells| == Reserved(|Bytes(c)|) >= 1
  {
    if c.Four? then [0, 0] else [0]
  }

  function AcceptedU8(t: seq<bv8>, lim: nat, room: nat, flags: bv32): Option<seq<Char8>> {
    var p := Parse8(t, lim);
    Accepted(Slots, p, if p.stop.Bad? then Reserved(p.stop.announced) else 0, Has(flags, FLAG_TRUNCATE), room, false)
  }

  /** A four-byte form of a value that three bytes would do for; RFC 3629 forbids it. */
  predicate LongFour(c: Char8) { c.Four? && CodePoint8(c) <= 0xffff }

  predicate NoLongFours(cs: seq<Char8>) { forall c :: c in cs ==> !LongFour(c) }

  lemma ThreeIsSmall(a: bv8, b: bv8, c: bv8)
    ensures Point2(a, b) <= 0xffff && Point3(a, b, c) <= 0xffff
  {
  }

  /** A long four needs one cell less than is reserved for it, every other character just what is reserved. */
  lemma SlotsSuffice(c: Char8)
    ensures |Slots(c)| == |Emit16(c)| + if LongFour(c) then 1 else 0
  {
    hide Point2, Point3, Point4, HighSurrogate, LowSurrogate, OneUnit;
    match c
    case One(a) =>
    case Two(a, b) => ThreeIsSmall(a, b, 0);
    case Three(a, b, c) => ThreeIsSmall(a, b, c);
    case Four(a, b, c, d) =>
  }

  function LongFours(cs: seq<Char8>): nat {
    if |cs| == 0 then 0 else (if LongFour(cs[0]) then 1 else 0) + LongFours(cs[1..])
  }

  lemma {:induction false} GapIsLongFours(cs: seq<Char8>)
    ensures |FlatMap(Slots, cs)| == |FlatMap(Emit16, cs)| + LongFours(cs)
    ensures LongFours(cs) == 0 <==> NoLongFours(cs)
  {
    hide Slots, Emit16, LongFour;
    if |cs| > 0 {
      SlotsSuffice(cs[0]);
      GapIsLongFours(cs[1..]);
      assert cs == [cs[0]] + cs[1..];
    }
  }

  lemma LookAtU(t: seq<bv8>, lim: nat, room: nat, flags: bv32, rest: Parsed<Char8>, at: nat, done: seq<Char8>,
                size: nat)
    returns (next: Char8, after: Parsed<Char8>)
    requires at <= |t| <= lim && rest == Parse8(t[at..], lim - at) && FlatMap(Bytes, done) == t[..at]
    requires Counting(Slots, Parse8(t, lim), rest, Has(flags, FLAG_TRUNCATE), room, done, size)
    ensures size == |FlatMap(Slots, done)|
    ensures at == |t| ==> AcceptedU8(t, lim, room, flags) == Some(done)
    ensures at < |t| ==>
              var n := Announced(t[at]);
              && (n == 0 ==> AcceptedU8(t, lim, room, flags) == None)
              && (n != 0 && at + n > lim ==> AcceptedU8(t, lim, room, flags) == Some(done))
              && (n != 0 && at + n <= lim ==>
                    if Has(flags, FLAG_TRUNCATE) && Over(size + Reserved(n), room) then
                      AcceptedU8(t, lim, room, flags) == Some(done)
                    else if at + n > |t| || !Framed8(CharAt(t[at..], n)) then
                      AcceptedU8(t, lim, room, flags) == None
                    else
                      && after == Parse8(t[at + n..], lim - (at + n)) && FlatMap(Bytes, done + [next]) == t[..at + n]
                      && Counting(Slots, Parse8(t, lim), after, Has(flags, FLAG_TRUNCATE), room, done + [next],
                                  size + Reserved(n)))
  {
    hide Accepted, Counting, FlatMap, Framed8, Announced, CharAt, Bytes, Over;
    var all := Parse8(t, lim);
    SizeOf(Slots, all, rest, Has(flags, FLAG_TRUNCATE), room, done, size);
    var need := if all.stop.Bad? then Reserved(all.stop.announced) else 0;
    if at == |t| {
      Exhausted(Slots, all, rest, Has(flags, FLAG_TRUNCATE), room, done, size, need, false);
      next, after := One(0), rest;
    } else {
      next, after := LookAt8(Slots, t, lim, Has(flags, FLAG_TRUNCATE), room, all, rest, at, done, size, need);
    }
  }

  lemma SizeOf<C, T>(f: C -> seq<T>, all: Parsed<C>, rest: Parsed<C>, truncate: bool, cap: nat, done: seq<C>, size: nat)
    requires Counting(f, all, rest, truncate, cap, done, size)
    ensures size == |FlatMap(f, done)|
  {
  }

  method CountUtoW(usz: array<bv8>, lim: dword, cbBuffer: dword, flags: bv32)
    returns (ok: bool, cbu: dword, cbw: dword, ghost done: seq<Char8>)
    requires lim <= CONVERT_MAXSIZE && Terminated(usz[..], 0, lim) && cbBuffer % 2 == 0
    ensures var t := usz[..Strnlen(usz[..], 0, lim)]; var cs := AcceptedU8(t, lim, cbBuffer / 2, flags);
            && ok == cs.Some?
            && (ok ==> cbu <= |t| && FlatMap(Bytes, cs.value) == t[..cbu]
                       && cbw == 2 * |FlatMap(Slots, cs.value)| && cbw <= 2 * cbu)
    ensures ok ==> AcceptedU8(usz[..Strnlen(usz[..], 0, lim)], lim, cbBuffer / 2, flags) == Some(done)
  {
    hide Counting, AcceptedU8, Parse8, FlatMap, Announced, Framed8, Over, CharAt, Bytes, Slots, Has;
    var truncate := Has(flags, FLAG_TRUNCATE);
    ghost var m := Strnlen(usz[..], 0, lim);
    ghost var t := usz[..m];
    assert m == lim <= usz.Length || (m < usz.Length && usz[m] == 0);
    ghost var all := Parse8(t, lim);
    cbu, cbw, done := 0, 0, [];
    ghost var rest, size := all, 0;
    CountingStarts(Slots, Bytes, all, truncate, cbBuffer / 2);
    assert t[0..] == t;
    while cbu < lim && usz[cbu] != 0
      invariant cbu <= |t| && cbw <= 2 * cbu && cbw == 2 * size
      invariant FlatMap(Bytes, done) == t[..cbu] && rest == Parse8(t[cbu..], lim - cbu)
      invariant Counting(Slots, all, rest, truncate, cbBuffer / 2, done, size)
      decreases lim - cbu
    {
      ghost var next, after := LookAtU(t, lim, cbBuffer / 2, flags, rest, cbu, done, size);
      assert t[cbu] == usz[cbu];
      var n := Announced(usz[cbu]);
      if n == 0 { return false, 0, 0, []; }
      if cbu + n > lim { break; }
      OverWhenSmall(size + Reserved(n), cbBuffer / 2);
      if truncate && cbw + (if n == 4 then 4 else 2) >= cbBuffer { break; }
      var tailOk := TailOk(usz, cbu, n, lim);
      if !tailOk { return false, 0, 0, []; }
      cbw := cbw + (if n == 4 then 4 else 2);
      cbu := cbu + n;
      done, rest, size := done + [next], after, size + Reserved(n);
    }
    ghost var _, _ := LookAtU(t, lim, cbBuffer / 2, flags, rest, cbu, done, size);
    ok := true;
  }

  // The backward fill of UtoW.

  // The code point gathered from the bytes of a character, added up from the last byte on.
  function Sum2(a: bv8, b: bv8): bv32 { (b & 0x3f) as bv32 + ((a & 0x1f) as bv32 << 6) }
  function Sum3(a: bv8, b: bv8, c: bv8): bv32 {
    (c & 0x3f) as bv32 + ((b & 0x3f) as bv32 << 6) + ((a & 0x0f) as bv32 << 12)
  }
  function Sum4(a: bv8, b: bv8, c: bv8, d: bv8): bv32 {
    (d & 0x3f) as bv32 + ((c & 0x3f) as bv32 << 6) + ((b & 0x3f) as bv32 << 12) + ((a & 0x07) as bv32 << 18)
  }

  lemma Sum2IsPoint(a: bv8, b: bv8)
    ensures Sum2(a, b) == Point2(a, b)
  {
  }

  lemma Sum3IsPoint(a: bv8, b: bv8, c: bv8)
    ensures Sum3(a, b, c) == Point3(a, b, c)
  {
  }

  lemma Sum4IsPoint(a: bv8, b: bv8, c: bv8, d: bv8)
    ensures Sum4(a, b, c, d) == Point4(a, b, c, d)
  {
  }

  lemma LeadIsNoTail(a: bv8)
    ensures Announced(a) > 0 ==> !IsTail(a)
  {
  }

  /** What the bytes of a framed character look like from its end. */
  lemma FromTheEnd(c: Char8)
    requires Framed8(c)
    ensures !IsTail(c.a)
    ensures match c
            case One(a) => true
            case Two(a, b) => IsTail(b) && CodePoint8(c) == Sum2(a, b)
            case Three(a, b, d) => IsTail(b) && IsTail(d) && CodePoint8(c) == Sum3(a, b, d)
            case Four(a, b, d, e) => IsTail(b) && IsTail(d) && IsTail(e) && CodePoint8(c) == Sum4(a, b, d, e)
  {
    hide Point2, Point3, Point4, IsTail, Announced, Sum2, Sum3, Sum4;
    LeadIsNoTail(c.a);
    match c
    case One(a) =>
    case Two(a, b) => Sum2IsPoint(a, b);
    case Three(a, b, c) => Sum3IsPoint(a, b, c);
    case Four(a, b, c, d) => Sum4IsPoint(a, b, c, d);
  }

  /** Reads one character from its last byte backwards. */
  method GatherBack(usz: array<bv8>, i: dword, ghost last: Char8) returns (ch: bv32, i': dword)
    requires Framed8(last) && |Bytes(last)| - 1 <= i < usz.Length && usz[i + 1 - |Bytes(last)|..i + 1] == Bytes(last)
    ensures ch == CodePoint8(last) && i' == Minus(i, |Bytes(last)|)
  {
    hide IsTail, Framed8, Sum2, Sum3, Sum4, Point2, Point3, Point4;
    FromTheEnd(last);
    ghost var s, n := Bytes(last), |Bytes(last)|;
    forall k | 0 <= k < n ensures s[k] == usz[i + 1 - n + k] { assert s[k] == usz[i + 1 - n..i + 1][k]; }
    var c0 := usz[i];
    assert c0 == s[n - 1];
    i' := Minus(i, 1);
    if !IsTail(c0) { return c0 as bv32, i'; }
    var c1 := usz[i'];
    assert c1 == s[n - 2];
    i' := Minus(i', 1);
    if !IsTail(c1) { return Sum2(c1, c0), i'; }
    var c2 := usz[i'];
    assert c2 == s[n - 3];
    i' := Minus(i', 1);
    if !IsTail(c2) { return Sum3(c2, c1, c0), i'; }
    var c3 := usz[i'];
    assert c3 == s[n - 4];
    i' := Minus(i', 1);
    ch := Sum4(c3, c2, c1, c0);
  }

  /** Fills from the right; `gap` reserved cells at the left are left over. */
  method FillUtoW(usz: array<bv8>, wsz: array<bv16>, cbu: dword, cbw: dword, ghost cs: seq<Char8>, ghost gap: nat)
    requires AllFramed8(cs) && FlatMap(Bytes, cs) <= usz[..]
    requires cbu == |FlatMap(Bytes, cs)| + 1 && cbu <= CONVERT_MAXSIZE + 1
    requires cbw == 2 * (gap + |FlatMap(Emit16, cs)|) + 2 && cbw / 2 <= wsz.Length
    modifies wsz
    ensures HoldsBehind(wsz, gap, FlatMap(Emit16, cs))
  {
    hide OwedAt, FlatMap, Patched, Bytes, Framed8, CodePoint8, WideOf;
    var i, j := Minus(cbu, 2), Minus(cbw / 2, 1);
    ghost var k, end := |cs|, cbw / 2 - 1;
    wsz[j] := 0;
    j := Minus(j, 1);
    ghost var start := wsz[..];
    BytesNonEmpty(cs);
    OwedAtStarts(Bytes, Emit16, usz[..], cs, cbu, cbw / 2, start, gap);
    while i < 0x7fffffff
      invariant k >= 0 && OwedAt(Bytes, Emit16, usz[..], cs, k, i, j, wsz[..], start, end, gap)
      decreases k
    {
      OwedAtEnds(Bytes, Emit16, usz[..], cs, k, i, j, wsz[..], start, end, gap);
      ghost var last, a, p := OwedAtStep(Bytes, Emit16, usz[..], cs, k, i, j, wsz[..], start, end, gap);
      assert last in cs;
      var ch;
      ch, i := GatherBack(usz, i, last);
      j := PutBack(wsz, j, WideOf(ch));
      k := k - 1;
    }
    OwedAtEnds(Bytes, Emit16, usz[..], cs, k, i, j, wsz[..], start, end, gap);
    TextBehindGap(old(wsz[..]), start, wsz[..], gap, FlatMap(Emit16, cs), end);
  }

  lemma TextBehindGap(was: seq<bv16>, start: seq<bv16>, now: seq<bv16>, gap: nat, text: seq<bv16>, end: nat)
    requires gap + |text| == end < |now| == |start| == |was| && start == was[end := 0]
    requires now[..gap] == start[..gap] && now[gap..end] == text && now[end..] == start[end..]
    ensures now[..gap] == was[..gap] && now[gap..end + 1] == text + [0] && now[end + 1..] == was[end + 1..]
  {
    assert now[end] == now[end..][0] == start[end..][0] == 0;
    assert now[end + 1..] == now[end..][1..] == start[end..][1..] == was[end + 1..];
  }

  lemma BytesNonEmpty(cs: seq<Char8>)
    ensures forall c :: c in cs ==> |Bytes(c)| >= 1
  {
  }

  /**
   The failure exit of UtoW writes one byte only: `dst[0]` keeps its high byte, so the caller gets an empty
   string exactly when that byte was zero already.
   */
  twostate predicate FailedW(dst: array?<bv16>, cbBuffer: nat, wantStr: bool, flags: bv32, cbSoFar: nat,
                             ok: bool, new wsz: array?<bv16>, cb: nat)
    reads dst
  {
    !ok &&
    if flags == FLAG_TRUNCATE_ONFAIL_NULLSTR && dst != null && dst.Length > 0 && cbBuffer > 1
    then wsz == (if wantStr then dst else null) && cb == 2 && dst[..] == old(dst[..])[0 := old(dst[0]) & 0xff00]
    else wsz == null && cb == cbSoFar && Untouched(dst)
  }

  /** The text and its NUL behind `gap` cells that keep what was in them; the rest is as it was, too. */
  twostate predicate HoldsBehind(p: array<bv16>, gap: nat, text: seq<bv16>)
    reads p
  {
    var was, now := old(p[..]), p[..];
    && gap + |text| < |now|
    && now[..gap] == was[..gap] && now[gap..gap + |text| + 1] == text + [0]
    && now[gap + |text| + 1..] == was[gap + |text| + 1..]
  }

  twostate predicate AnsweredW(place: Placement, dst: array?<bv16>, room: nat, wantStr: bool, flags: bv32, need: nat,
                               ok: bool, new wsz: array?<bv16>, cb: nat)
    reads dst
  {
    match place
    case LengthOnly => ok && wsz == null && cb == need && Untouched(dst)
    case Refused => !ok && wsz == null && cb == need && Untouched(dst)
    case _ => place.NoRoom? && FailedW(dst, room, wantStr, flags, need, ok, wsz, cb)
  }

  /**
   The observable answer of UtoW; sizes are in bytes, `room` is the even part of the caller's buffer size. The
   caller is told a size that includes the gap, and gets a buffer that starts with it.
   */
  twostate predicate RepliedW(dst: array?<bv16>, room: nat, wantStr: bool, flags: bv32, heapOk: bool,
                              units: Option<seq<bv16>>, gap: nat, ok: bool, new wsz: array?<bv16>, cb: nat)
    reads dst, wsz
  {
    match units
    case None => FailedW(dst, room, wantStr, flags, 0, ok, wsz, cb)
    case Some(text) =>
      var need := 2 * (gap + |text|) + 2;
      var place := Place(flags, wantStr, dst != null, room, heapOk, need);
      if place.InBuffer? then
        ok && cb == need && wsz == (if wantStr then dst else null) && dst != null && HoldsBehind(dst, gap, text)
      else if place.InHeap? then
        && ok && cb == need && wsz != null && fresh(wsz) && 2 * wsz.Length == need && wsz[gap..] == text + [0]
        && Untouched(dst)
      else
        AnsweredW(place, dst, room, wantStr, flags, need, ok, wsz, cb)
  }

  /** What the caller of UtoW sees, by what it has passed. */
  twostate lemma CallerSeesW(dst: array?<bv16>, room: nat, wantStr: bool, flags: bv32, heapOk: bool,
                             text: seq<bv16>, gap: nat, ok: bool, new wsz: array?<bv16>, cb: nat)
    requires RepliedW(dst, room, wantStr, flags, heapOk, Some(text), gap, ok, wsz, cb)
    ensures var need := 2 * (gap + |text|) + 2;
            && (!Asks(flags, wantStr) ==> ok && cb == need && wsz == null && Untouched(dst))
            && (Asks(flags, wantStr) && !wantStr && Allocates(flags) ==> !ok && wsz == null && Untouched(dst))
            && (Asks(flags, wantStr) && Suffices(dst != null, room, need) && (wantStr || !Allocates(flags)) ==>
                  && ok && cb == need && wsz == (if wantStr then dst else null) && gap + |text| < dst.Length
                  && dst[..][gap..gap + |text| + 1] == text + [0] && dst[..][..gap] == old(dst[..])[..gap]
                  && dst[..][gap + |text| + 1..] == old(dst[..])[gap + |text| + 1..])
            && (wantStr && Allocates(flags) && !Suffices(dst != null, room, need) && heapOk ==>
                  && ok && cb == need && wsz != null && fresh(wsz) && 2 * wsz.Length == need
                  && wsz[gap..] == text + [0] && Untouched(dst))
            && (!Suffices(dst != null, room, need)
                && ((Asks(flags, wantStr) && !Allocates(flags)) || (wantStr && Allocates(flags) && !heapOk)) ==>
                  && !ok
                  && if flags == 6 && dst != null && dst.Length > 0 && room > 1 then
                       && cb == 2 && wsz == (if wantStr then dst else null)
                       && dst[..] == old(dst[..])[0 := old(dst[0]) & 0xff00]
                     else
                       wsz == null && cb == need && Untouched(dst))
  {
    hide Place;
    PlaceDecides(flags, wantStr, dst != null, room, heapOk, 2 * (gap + |text|) + 2);
  }

  method FailTailW(dst: array?<bv16>, cbBuffer: dword, wantStr: bool, flags: bv32, cbSoFar: nat)
    returns (wsz: array?<bv16>, cb: nat)
    requires dst != null ==> cbBuffer <= 2 * dst.Length
    modifies Cells(dst)
    ensures FailedW(dst, cbBuffer, wantStr, flags, cbSoFar, false, wsz, cb)
  {
    wsz, cb := null, cbSoFar;
    if flags ^ FLAG_TRUNCATE_ONFAIL_NULLSTR == 0 && dst != null && cbBuffer > 1 {
      if wantStr { wsz := dst; }
      cb := 2;
      dst[0] := dst[0] & 0xff00;
    }
  }

  method PrepareW(dst: array?<bv16>, room: dword, wantStr: bool, flags: bv32, heapOk: bool, need: nat)
    returns (buf: array?<bv16>, ok: bool, wsz: array?<bv16>, cb: nat)
    requires (dst != null ==> room <= 2 * dst.Length) && need % 2 == 0 && need > 0
    modifies Cells(dst)
    ensures var place := Place(flags, wantStr, dst != null, room, heapOk, need);
            if place.InBuffer? then buf == dst && dst != null && need <= room && Untouched(dst)
            else if place.InHeap? then wantStr && buf != null && fresh(buf) && 2 * buf.Length == need && Untouched(dst)
            else buf == null && AnsweredW(place, dst, room, wantStr, flags, need, ok, wsz, cb)
    ensures buf != null ==> ok && cb == need && wsz == (if wantStr then buf else null)
  {
    buf, ok, wsz, cb := null, true, null, need;
    if !wantStr {
      if !Has(flags, FLAG_STR_BUFONLY) { return; }
      if Has(flags, FLAG_ALLOC) {
        ok := false;
        return;
      }
    }
    if !Has(flags, FLAG_ALLOC) && (dst == null || room < need) {
      ok := false;
      wsz, cb := FailTailW(dst, room, wantStr, flags, need);
      return;
    }
    if dst != null && room >= need {
      buf := dst;
    } else if heapOk {
      buf := new bv16[need / 2];
    } else {
      ok := false;
      wsz, cb := FailTailW(dst, room, wantStr, flags, need);
      return;
    }
    if wantStr { wsz := buf; }
  }

  /** The units UtoW produces for a text, NUL excluded. */
  function UtoWText(t: seq<bv8>, lim: nat, room: nat, flags: bv32): Option<seq<bv16>> {
    if Has(flags, FLAG_TRUNCATE) && (room == 0 || Has(flags, FLAG_ALLOC)) then None
    else match AcceptedU8(t, lim, room / 2, flags)
         case None => None
         case Some(cs) => Some(FlatMap(Emit16, cs))
  }

  /** The cells UtoW leaves unfilled at the start of its result. */
  function UtoWGap(t: seq<bv8>, lim: nat, room: nat, flags: bv32): nat {
    match AcceptedU8(t, lim, room / 2, flags)
    case None => 0
    case Some(cs) => LongFours(cs)
  }

  /** The result starts at the front exactly when no character taken is a long four. */
  lemma UtoWGapIff(t: seq<bv8>, lim: nat, room: nat, flags: bv32)
    ensures var cs := AcceptedU8(t, lim, room / 2, flags);
            UtoWGap(t, lim, room, flags) == 0 <==> cs.None? || NoLongFours(cs.value)
  {
    hide AcceptedU8;
    var cs := AcceptedU8(t, lim, room / 2, flags);
    if cs.Some? { GapIsLongFours(cs.value); }
  }

  lemma AcceptedU8Framed(t: seq<bv8>, lim: nat, room: nat, flags: bv32)
    ensures AcceptedU8(t, lim, room, flags).Some? ==> AllFramed8(AcceptedU8(t, lim, room, flags).value)
  {
    Parse8Consumes(t, lim);
  }

  /** A euro sign in four bytes: UtoW reports six bytes and fills the last four. */
  lemma LongFourLeavesGap()
    ensures var t := [0xf0, 0x82, 0x82, 0xac];
            UtoWText(t, 4, 0, 0) == Some([0x20ac]) && UtoWGap(t, 4, 0, 0) == 1
  {
    var t: seq<bv8> := [0xf0, 0x82, 0x82, 0xac];
    var c := Four(0xf0, 0x82, 0x82, 0xac);
    EuroIsFramed();
    Parse8Of([c], 4);
    assert FlatMap(Bytes, [c]) == Bytes(c) + FlatMap(Bytes, []) == t;
    assert FlatMap(Emit16, [c]) == Emit16(c) + FlatMap(Emit16, []) == [0x20ac];
    assert LongFours([c]) == 1 + LongFours([]);
  }

  lemma EuroIsFramed()
    ensures var c := Four(0xf0, 0x82, 0x82, 0xac); Framed8(c) && LongFour(c) && Emit16(c) == [0x20ac]
  {
  }

  method DeliverUtoW(s: array<bv8>, dst: array?<bv16>, room: dword, wantStr: bool, flags: bv32, heapOk: bool,
                     cbu: dword, cb: dword, ghost cs: seq<Char8>)
    returns (ok: bool, wsz: array?<bv16>, cbw: nat)
    requires (dst != null ==> room <= 2 * dst.Length) && AllFramed8(cs) && FlatMap(Bytes, cs) <= s[..]
    requires cbu == |FlatMap(Bytes, cs)| + 1 && cbu <= CONVERT_MAXSIZE + 1 && cb == 2 * |FlatMap(Slots, cs)| + 2
    modifies Cells(dst)
    ensures RepliedW(dst, room, wantStr, flags, heapOk, Some(FlatMap(Emit16, cs)), LongFours(cs), ok, wsz, cbw)
  {
    hide FlatMap, Place, Has, LongFours, AllFramed8;
    GapIsLongFours(cs);
    var buf;
    buf, ok, wsz, cbw := PrepareW(dst, room, wantStr, flags, heapOk, cb);
    if buf != null {
      FillUtoW(s, buf, cbu, cb, cs, LongFours(cs));
    }
  }

  method UtoWOf(s: array<bv8>, lim: dword, dst: array?<bv16>, room: dword, wantStr: bool, flags: bv32, heapOk: bool)
    returns (ok: bool, wsz: array?<bv16>, cbw: nat)
    requires lim <= CONVERT_MAXSIZE && Terminated(s[..], 0, lim) && room % 2 == 0
             && (dst != null ==> room <= 2 * dst.Length)
    modifies Cells(dst)
    ensures var t := old(s[..Strnlen(s[..], 0, lim)]);
            RepliedW(dst, room, wantStr, flags, heapOk, UtoWText(t, lim, room, flags), UtoWGap(t, lim, room, flags),
                     ok, wsz, cbw)
  {
    hide AcceptedU8, FlatMap, Strnlen, Terminated, Parse8, Place, LongFours, Has;
    ghost var t := s[..Strnlen(s[..], 0, lim)];
    if Has(flags, FLAG_TRUNCATE) && (room == 0 || Has(flags, FLAG_ALLOC)) {
      wsz, cbw := FailTailW(dst, room, wantStr, flags, 0);
      return false, wsz, cbw;
    }
    var counted, cbu, cb, cs := CountUtoW(s, lim, room, flags);
    if !counted {
      wsz, cbw := FailTailW(dst, room, wantStr, flags, 0);
      return false, wsz, cbw;
    }
    AcceptedU8Framed(t, lim, room / 2, flags);
    assert t[..cbu] == s[..cbu];
    ok, wsz, cbw := DeliverUtoW(s, dst, room, wantStr, flags, heapOk, cbu + 1, cb + 2, cs);
  }

  method UtoW(usz: array?<bv8>, cch: dword, dst: array?<bv16>, cbBuffer: dword, wantStr: bool, flags: bv32,
              heapOk: bool)
    returns (ok: bool, wsz: array?<bv16>, cbw: nat)
    requires Readable(usz, 0, cch)
    requires dst != null ==> cbBuffer <= 2 * dst.Length
    modifies Cells(dst)
    ensures var room, t := cbBuffer - cbBuffer % 2, old(Text(usz, 0, cch));
            RepliedW(dst, room, wantStr, flags, heapOk, UtoWText(t, Limit(cch), room, flags),
                     UtoWGap(t, Limit(cch), room, flags), ok, wsz, cbw)
  {
    hide UtoWText, UtoWGap, Strnlen, Terminated, Place;
    var s := Source(usz, 0, cch);
    ok, wsz, cbw := UtoWOf(s, Limit(cch), dst, cbBuffer - cbBuffer % 2, wantStr, flags, heapOk);
  }
}
