/**
 The converters that look at one byte at a time and may run in place: CharUtil_AtoU, CharUtil_UtoJ and
 CharUtil_AtoJ of vmm/charutil.c. Their passes differ only in what a byte becomes and in which bytes the
 truncating count checks.
 */
module Narrow {
  import opened Transcode
  import opened FillPass

  // ---------------------------------------------------------------- what a byte becomes

  /** AtoU: a byte is the code point of that number. */
  function Latin(c: bv8): seq<bv8> {
    if c > 0x7f then [0xc0 | ((c >> 6) & 0x1f), 0x80 | (c & 0x3f)] else [c]
  }

  const QUOTE: bv8 := 0x22
  const BACKSLASH: bv8 := 0x5c

  predicate Special(c: bv8) { c < 0x20 || c == QUOTE || c == BACKSLASH }

  /** The bytes JSON has a two-character escape for, among those that must be escaped. */
  predicate Short(c: bv8) { c in {QUOTE, BACKSLASH, 0x08, 0x0c, 0x0a, 0x0d, 0x09} }

  function EscapeJSON2(c: bv8): seq<bv8>
    requires Short(c)
  {
    [BACKSLASH, if c == 0x08 then 0x62 else if c == 0x0c then 0x66 else if c == 0x0a then 0x6e
                else if c == 0x0d then 0x72 else if c == 0x09 then 0x74 else c]
  }

  function HexDigit(h: bv8): bv8 { if h < 10 then 0x30 + h else 0x61 - 10 + h }

  function EscapeJSON6(c: bv8): seq<bv8> {
    [BACKSLASH, 0x75, 0x30, 0x30, HexDigit((c >> 4) & 0xf), HexDigit(c & 0xf)]
  }

  /** UtoJ */
  function Json(c: bv8): seq<bv8> {
    if !Special(c) then [c] else if Short(c) then EscapeJSON2(c) else EscapeJSON6(c)
  }

  /** AtoJ */
  function LatinJson(c: bv8): seq<bv8> {
    if c > 0x7f then Latin(c) else Json(c)
  }

  /** The escapes of RFC 8259, section 7: short ones where there are, else four hexadecimal digits in lower case. */
  lemma EscapesOf(c: bv8)
    ensures c >= 0x20 && c != 0x22 && c != 0x5c ==> Json(c) == [c]
    ensures c == 0x22 || c == 0x5c ==> Json(c) == [0x5c, c]
    ensures Json(0x08) == [0x5c, 0x62] && Json(0x0c) == [0x5c, 0x66] && Json(0x0a) == [0x5c, 0x6e]
    ensures Json(0x0d) == [0x5c, 0x72] && Json(0x09) == [0x5c, 0x74]
    ensures c < 0x20 && c !in {0x08, 0x09, 0x0a, 0x0c, 0x0d} ==>
              Json(c) == [0x5c, 0x75, 0x30, 0x30, if c < 0x10 then 0x30 else 0x31,
                          [0x30, 0x31, 0x32, 0x33, 0x34, 0x35, 0x36, 0x37, 0x38, 0x39,
                           0x61, 0x62, 0x63, 0x64, 0x65, 0x66][c as nat % 16]]
  {
  }

  // What the count passes add for a byte beyond one.
  function GrowLatin(c: bv8): nat { if c > 0x7f then 1 else 0 }
  function GrowJson(c: bv8): nat { if Special(c) then if Short(c) then 1 else 5 else 0 }
  function GrowLatinJson(c: bv8): nat { if c > 0x7f then 1 else GrowJson(c) }

  lemma Lengths(c: bv8)
    ensures |Latin(c)| == 1 + GrowLatin(c) <= 2 && |Json(c)| == 1 + GrowJson(c) <= 6
            && |LatinJson(c)| == 1 + GrowLatinJson(c) <= 6
  {
  }

  // ---------------------------------------------------------------- count pass

  function Self(c: bv8): seq<bv8> { [c] }

  lemma {:induction false} SelfIsText(t: seq<bv8>)
    ensures FlatMap(Self, t) == t
  {
    if |t| > 0 { SelfIsText(t[1..]); }
  }

  predicate AnyByte(c: bv8) { true }

  /**
   The bytes a count pass takes. It checks the room, in DWORD sums, of those bytes only that `checked` picks; AtoU
   and AtoJ check all, UtoJ just the ones it escapes.
   */
  function Taken(f: bv8 -> seq<bv8>, checked: bv8 -> bool, t: seq<bv8>, used: nat, cap: nat): (k: nat)
    ensures k <= |t|
  {
    if |t| == 0 || (checked(t[0]) && Over(used + |f(t[0])|, cap)) then 0
    else 1 + Taken(f, checked, t[1..], used + |f(t[0])|, cap)
  }

  function AcceptedBytes(f: bv8 -> seq<bv8>, checked: bv8 -> bool, t: seq<bv8>, cap: nat, flags: bv32): seq<bv8> {
    if Has(flags, FLAG_TRUNCATE) then t[..Taken(f, checked, t, 0, cap)] else t
  }

  lemma {:induction false} TakenStep(f: bv8 -> seq<bv8>, checked: bv8 -> bool, t: seq<bv8>, used: nat, cap: nat, i: nat)
    requires i < |t| && i <= Taken(f, checked, t, used, cap)
    ensures i < Taken(f, checked, t, used, cap) <==>
            !checked(t[i]) || !Over(used + |FlatMap(f, t[..i])| + |f(t[i])|, cap)
  {
    hide Over;
    if i > 0 {
      assert t[..i][1..] == t[1..][..i - 1];
      TakenStep(f, checked, t[1..], used + |f(t[0])|, cap, i - 1);
    }
  }

  /** What the count passes rely on: `grow` is what a byte becomes beyond one. */
  ghost predicate Growing(f: bv8 -> seq<bv8>, grow: bv8 -> nat) { forall c :: |f(c)| == 1 + grow(c) <= 6 }

  /** The DWORD counters add up to the low 32 bits of the size; `size` itself is not in the code. */
  method CountBytes(f: bv8 -> seq<bv8>, grow: bv8 -> nat, checked: bv8 -> bool, sz: array<bv8>, lim: dword,
                    cbBuffer: dword, flags: bv32)
    returns (cba: dword, cbx: dword, size: nat)
    requires Growing(f, grow) && lim <= CONVERT_MAXSIZE && Terminated(sz[..], 0, lim)
    ensures var t := sz[..Strnlen(sz[..], 0, lim)];
            && cba <= |t| && t[..cba] == AcceptedBytes(f, checked, t, cbBuffer, flags)
            && size == |FlatMap(f, t[..cba])| && AddUp(cba, cbx, size)
  {
    hide FlatMap, Taken, Over, Wrapped, AddUp;
    var truncate := Has(flags, FLAG_TRUNCATE);
    ghost var n := Strnlen(sz[..], 0, lim);
    ghost var t := sz[..n];
    assert n == lim <= sz.Length || (n < sz.Length && sz[n] == 0);
    cba, cbx, size := 0, 0, 0;
    assert t[..n] == t;
    NothingExpands(f);
    AddUpStarts();
    while cba < lim && sz[cba] != 0
      invariant cba <= n && size == |FlatMap(f, t[..cba])| && AddUp(cba, cbx, size)
      invariant truncate ==> cba <= Taken(f, checked, t, 0, cbBuffer)
      decreases lim - cba
    {
      var c := sz[cba];
      assert t[cba] == c && |f(c)| == 1 + grow(c);
      FlatMapAt(f, t, cba);
      if truncate { TakenStep(f, checked, t, 0, cbBuffer, cba); }
      AddUpMore(cba, cbx, size, 1, grow(c), cbBuffer);
      if truncate && checked(c) && Wrapped(cba + cbx + (1 + grow(c))) >= cbBuffer { break; }
      cbx := Wrapped(cbx + grow(c));
      cba := cba + 1;
      size := size + (1 + grow(c));
    }
    assert t[..|t|] == t;
  }

  lemma {:induction false} BytesGrow(f: bv8 -> seq<bv8>, s: seq<bv8>)
    requires forall c :: |f(c)| >= 1
    ensures |FlatMap(f, s)| >= |s|
  {
    if |s| > 0 { BytesGrow(f, s[1..]); }
  }

  lemma NothingExpands<S, T>(f: S -> seq<T>)
    ensures FlatMap(f, []) == []
  {
  }

  // ---------------------------------------------------------------- fill pass

  /** One more byte read from the right, and what that means when the fill overwrites its own source. */
  lemma NextByte(f: bv8 -> seq<bv8>, src: seq<bv8>, t: seq<bv8>, k: nat, i: dword, j: dword,
                 buf: seq<bv8>, before: seq<bv8>, end: nat)
    returns (p: nat)
    requires forall c :: |f(c)| >= 1
    requires 0 < k <= |t| && Owed(Self, f, src, t, k, i, j, buf, before, end)
    ensures i == k - 1 < |src| && src[i] == t[k - 1]
    ensures p + |f(src[i])| <= |buf| && p + |f(src[i])| <= 0xffff_ffff && j == Minus(p + |f(src[i])|, 1)
    ensures var buf' := Patched(buf, p, f(src[i]));
            && Owed(Self, f, src, t, k - 1, Minus(i, 1), Minus(j, |f(src[i])|), buf', before, end)
            && (src == buf ==> Owed(Self, f, buf', t, k - 1, Minus(i, 1), Minus(j, |f(src[i])|), buf', before, end))
  {
    hide FlatMap, Owed;
    var c, a;
    c, a, p := NextChar(Self, f, src, t, k, i, j, buf, before, end);
    SelfIsText(t[..k - 1]);
    BytesGrow(f, t[..k - 1]);
    assert src[a..i + 1][0] == c;
    if src == buf {
      var buf' := Patched(buf, p, f(c));
      assert buf'[..a] == src[..a];
      SameFront(Self, f, src, buf', t, k - 1, Minus(i, 1), Minus(j, |f(c)|), buf', before, end, a);
    }
  }

  /**
   The backward fill. Source and destination may be one array: the write cursor leads the read cursor by what
   the unread bytes will still grow, so no unread byte is overwritten.
   */
  method FillExpanding(f: bv8 -> seq<bv8>, sz: array<bv8>, usz: array<bv8>, cba: dword, cbu: dword)
    requires forall c :: 1 <= |f(c)| <= 6
    requires 1 <= cba <= CONVERT_MAXSIZE + 1 && cba - 1 <= sz.Length
    requires cbu == |FlatMap(f, sz[..cba - 1])| + 1 && cbu <= usz.Length
    modifies usz
    ensures Holds(usz, FlatMap(f, old(sz[..cba - 1])), 0)
  {
    hide Owed, FlatMap, Patched;
    var i, j := Minus(cba, 2), Minus(cbu, 2);
    ghost var t, before := sz[..cba - 1], usz[..];
    ghost var k := |t|;
    SelfIsText(t);
    OwedStarts(Self, f, sz[..], t, cba, cbu, usz[..]);
    while i < 0x7fffffff
      invariant 0 <= k <= |t| && Owed(Self, f, sz[..], t, k, i, j, usz[..], before, cbu - 1)
      decreases k
    {
      OwedEnds(Self, f, sz[..], t, k, i, j, usz[..], before, cbu - 1, 0);
      ghost var p := NextByte(f, sz[..], t, k, i, j, usz[..], before, cbu - 1);
      var c := sz[i];
      i := Minus(i, 1);
      j := PutBack(usz, j, f(c));
      k := k - 1;
    }
    OwedEnds(Self, f, sz[..], t, k, i, j, usz[..], before, cbu - 1, 0);
    usz[cbu - 1] := 0;
  }

  // ---------------------------------------------------------------- the converters

  function ExpandedText(f: bv8 -> seq<bv8>, checked: bv8 -> bool, t: seq<bv8>, cbBuffer: nat,
                        flags: bv32): Option<seq<bv8>> {
    if Has(flags, FLAG_TRUNCATE) && (cbBuffer == 0 || Has(flags, FLAG_ALLOC)) then None
    else Some(FlatMap(f, AcceptedBytes(f, checked, t, cbBuffer, flags)))
  }

  lemma {:induction false} ExpansionBound(f: bv8 -> seq<bv8>, m: nat, s: seq<bv8>)
    requires forall c :: |f(c)| <= m
    ensures |FlatMap(f, s)| <= m * |s|
  {
    if |s| > 0 { ExpansionBound(f, m, s[1..]); }
  }

  method DeliverBytes(f: bv8 -> seq<bv8>, s: array<bv8>, dst: array?<bv8>, cbBuffer: dword, wantStr: bool, flags: bv32,
                      heapOk: bool, cba: dword, cbu: dword, size: nat)
    returns (ok: bool, usz: array?<bv8>, cb: nat, stray: bool)
    requires (dst != null ==> cbBuffer <= dst.Length) && forall c :: 1 <= |f(c)| <= 6
    requires 1 <= cba <= CONVERT_MAXSIZE + 1 && cba - 1 <= s.Length
    requires size == |FlatMap(f, s[..cba - 1])| && cbu == Wrapped(size + 1)
    modifies Cells(dst)
    ensures RepliedWrapped(dst, cbBuffer, wantStr, flags, heapOk, Some(FlatMap(f, old(s[..cba - 1]))), ok, usz, cb,
                           stray)
  {
    hide FlatMap, Place, Has;
    var buf;
    buf, ok, usz, cb := Prepare(dst, cbBuffer, wantStr, flags, heapOk, cbu);
    stray := buf != null && size + 1 != cbu;
    if buf != null && !stray {
      FillExpanding(f, s, buf, cba, cbu);
    }
  }

  /** The body the three converters share; `sz` and `dst` may be the same array. */
  method Expand(f: bv8 -> seq<bv8>, grow: bv8 -> nat, checked: bv8 -> bool, sz: array?<bv8>, cch: dword,
                dst: array?<bv8>, cbBuffer: dword, wantStr: bool, flags: bv32, heapOk: bool)
    returns (ok: bool, usz: array?<bv8>, cbu: nat, stray: bool)
    requires Growing(f, grow)
    requires Readable(sz, 0, cch) && (dst != null ==> cbBuffer <= dst.Length)
    modifies Cells(dst)
    ensures RepliedWrapped(dst, cbBuffer, wantStr, flags, heapOk,
                           ExpandedText(f, checked, old(Text(sz, 0, cch)), cbBuffer, flags), ok, usz, cbu, stray)
  {
    hide FlatMap, Place, Strnlen, Terminated, Taken, AcceptedBytes, Text, AddUp, Wrapped;
    stray := false;
    var s := Source(sz, 0, cch);
    ghost var t := Text(sz, 0, cch);
    if Has(flags, FLAG_TRUNCATE) && (cbBuffer == 0 || Has(flags, FLAG_ALLOC)) {
      usz, cbu := FailTail(dst, cbBuffer, wantStr, flags, 0);
      return false, usz, cbu, stray;
    }
    var cba, cbx, size := CountBytes(f, grow, checked, s, Limit(cch), cbBuffer, flags);
    assert s[..cba] == t[..cba];
    CountersAreExactIff(cba, cbx, size);
    ok, usz, cbu, stray := DeliverBytes(f, s, dst, cbBuffer, wantStr, flags, heapOk, cba + 1,
                                        Wrapped(cba as int + 1 + cbx), size);
  }

  method AtoU(sz: array?<bv8>, cch: dword, dst: array?<bv8>, cbBuffer: dword, wantStr: bool, flags: bv32, heapOk: bool)
    returns (ok: bool, usz: array?<bv8>, cbu: nat)
    requires Readable(sz, 0, cch) && (dst != null ==> cbBuffer <= dst.Length)
    modifies Cells(dst)
    ensures Replied(dst, cbBuffer, wantStr, flags, heapOk,
                    ExpandedText(Latin, AnyByte, old(Text(sz, 0, cch)), cbBuffer, flags), ok, usz, cbu)
  {
    forall c { Lengths(c); }
    LatinIsSmall(Text(sz, 0, cch), cbBuffer, flags);
    var stray;
    ok, usz, cbu, stray := Expand(Latin, GrowLatin, AnyByte, sz, cch, dst, cbBuffer, wantStr, flags, heapOk);
  }

  lemma LatinIsSmall(t: seq<bv8>, cbBuffer: nat, flags: bv32)
    requires |t| <= CONVERT_MAXSIZE
    ensures |FlatMap(Latin, AcceptedBytes(Latin, AnyByte, t, cbBuffer, flags))| <= 0x8000_0000
  {
    hide Latin;
    forall c { Lengths(c); }
    ExpansionBound(Latin, 2, AcceptedBytes(Latin, AnyByte, t, cbBuffer, flags));
  }

  /** `stray` tells that a size of 4 GB and more has wrapped and the fill left its buffer. */
  method UtoJ(sz: array?<bv8>, cch: dword, dst: array?<bv8>, cbBuffer: dword, wantStr: bool, flags: bv32, heapOk: bool)
    returns (ok: bool, jsz: array?<bv8>, cbj: nat, stray: bool)
    requires Readable(sz, 0, cch) && (dst != null ==> cbBuffer <= dst.Length)
    modifies Cells(dst)
    ensures RepliedWrapped(dst, cbBuffer, wantStr, flags, heapOk,
                           ExpandedText(Json, Special, old(Text(sz, 0, cch)), cbBuffer, flags), ok, jsz, cbj, stray)
  {
    forall c { Lengths(c); }
    ok, jsz, cbj, stray := Expand(Json, GrowJson, Special, sz, cch, dst, cbBuffer, wantStr, flags, heapOk);
  }

  method AtoJ(sz: array?<bv8>, cch: dword, dst: array?<bv8>, cbBuffer: dword, wantStr: bool, flags: bv32, heapOk: bool)
    returns (ok: bool, jsz: array?<bv8>, cbj: nat, stray: bool)
    requires Readable(sz, 0, cch) && (dst != null ==> cbBuffer <= dst.Length)
    modifies Cells(dst)
    ensures RepliedWrapped(dst, cbBuffer, wantStr, flags, heapOk,
                           ExpandedText(LatinJson, AnyByte, old(Text(sz, 0, cch)), cbBuffer, flags), ok, jsz, cbj,
                           stray)
  {
    forall c { Lengths(c); }
    ok, jsz, cbj, stray := Expand(LatinJson, GrowLatinJson, AnyByte, sz, cch, dst, cbBuffer, wantStr, flags, heapOk);
  }
}
