/** CharUtil_UtoU of vmm/charutil.c: a checked, possibly truncated copy of a UTF-8 text. */
module Validate {
  import opened Transcode
  import opened Unicode
  import opened CountPass

  function AcceptedU(t: seq<bv8>, lim: nat, cap: nat, flags: bv32): Option<seq<Char8>> {
    var p := Parse8(t, lim);
    Accepted(Bytes, p, if p.stop.Bad? then p.stop.announced else 0, Has(flags, FLAG_TRUNCATE), cap, false)
  }

  lemma LookAtCopy(t: seq<bv8>, lim: nat, cap: nat, flags: bv32, rest: Parsed<Char8>, at: nat, done: seq<Char8>)
    returns (next: Char8, after: Parsed<Char8>)
    requires at <= |t| <= lim <= CONVERT_MAXSIZE && rest == Parse8(t[at..], lim - at) && FlatMap(Bytes, done) == t[..at]
    requires Counting(Bytes, Parse8(t, lim), rest, Has(flags, FLAG_TRUNCATE), cap, done, at)
    ensures at == |t| ==> AcceptedU(t, lim, cap, flags) == Some(done)
    ensures at < |t| ==>
              var n := Announced(t[at]);
              && (n == 0 ==> AcceptedU(t, lim, cap, flags) == None)
              && (n != 0 && at + n > lim ==> AcceptedU(t, lim, cap, flags) == Some(done))
              && (n != 0 && at + n <= lim ==>
                    if Has(flags, FLAG_TRUNCATE) && at + n + 1 > cap then
                      AcceptedU(t, lim, cap, flags) == Some(done)
                    else if at + n > |t| || !Framed8(CharAt(t[at..], n)) then
                      AcceptedU(t, lim, cap, flags) == None
                    else
                      && after == Parse8(t[at + n..], lim - (at + n)) && FlatMap(Bytes, done + [next]) == t[..at + n]
                      && Counting(Bytes, Parse8(t, lim), after, Has(flags, FLAG_TRUNCATE), cap, done + [next], at + n))
  {
    hide Accepted, Bytes, FlatMap, Framed8, CharAt, Announced, Counting;
    var all := Parse8(t, lim);
    if at < |t| { OverWhenSmall(at + Announced(t[at]), cap); }
    hide Over;
    var need := if all.stop.Bad? then all.stop.announced else 0;
    if at == |t| {
      Exhausted(Bytes, all, rest, Has(flags, FLAG_TRUNCATE), cap, done, at, need, false);
      next, after := One(0), rest;
    } else {
      next, after := LookAt8(Bytes, t, lim, Has(flags, FLAG_TRUNCATE), cap, all, rest, at, done, at, need);
    }
  }

  method CountUtoU(usz: array<bv8>, lim: dword, cbBuffer: dword, flags: bv32)
    returns (ok: bool, cbu: dword, ghost done: seq<Char8>)
    requires lim <= CONVERT_MAXSIZE && Terminated(usz[..], 0, lim)
    ensures var t := usz[..Strnlen(usz[..], 0, lim)]; var cs := AcceptedU(t, lim, cbBuffer, flags);
            ok == cs.Some? && (ok ==> cbu <= |t| && FlatMap(Bytes, cs.value) == t[..cbu])
    ensures ok ==> AcceptedU(usz[..Strnlen(usz[..], 0, lim)], lim, cbBuffer, flags) == Some(done)
  {
    hide Counting, AcceptedU, Parse8, FlatMap, Announced, Framed8, CharAt, Bytes;
    var truncate := Has(flags, FLAG_TRUNCATE);
    ghost var m := Strnlen(usz[..], 0, lim);
    ghost var t := usz[..m];
    assert m == lim <= usz.Length || (m < usz.Length && usz[m] == 0);
    ghost var all := Parse8(t, lim);
    cbu, done := 0, [];
    ghost var rest := all;
    CountingStarts(Bytes, Bytes, all, truncate, cbBuffer);
    assert t[0..] == t;
    while cbu < lim && usz[cbu] != 0
      invariant cbu <= |t| && FlatMap(Bytes, done) == t[..cbu] && rest == Parse8(t[cbu..], lim - cbu)
      invariant Counting(Bytes, all, rest, truncate, cbBuffer, done, cbu)
      decreases lim - cbu
    {
      ghost var next, after := LookAtCopy(t, lim, cbBuffer, flags, rest, cbu, done);
      assert t[cbu] == usz[cbu];
      var n := Announced(usz[cbu]);
      if n == 0 { return false, 0, []; }
      if cbu + n > lim { break; }
      if truncate && cbu + n >= cbBuffer { break; }
      var tailOk := TailOk(usz, cbu, n, lim);
      if !tailOk { return false, 0, []; }
      cbu := cbu + n;
      done, rest := done + [next], after;
    }
    ghost var _, _ := LookAtCopy(t, lim, cbBuffer, flags, rest, cbu, done);
    ok := true;
  }

  /** memcpy, which takes the byte after the text along, and the NUL over it. `stray`: that byte is out of bounds. */
  method Copy(s: array<bv8>, buf: array<bv8>, cb: dword) returns (stray: bool)
    requires 0 < cb <= s.Length + 1 && cb <= buf.Length
    modifies buf
    ensures stray <==> buf != s && cb > s.Length
    ensures stray ==> buf[..] == old(buf[..])
    ensures !stray ==> Holds(buf, old(s[..cb - 1]), 0)
  {
    ghost var text := s[..cb - 1];
    if buf != s {
      if cb > s.Length { return true; }
      var n := 0;
      while n < cb
        invariant n <= cb && s[..] == old(s[..])
        invariant forall i :: 0 <= i < buf.Length ==> buf[i] == if i < n then s[i] else old(buf[i])
      {
        buf[n] := s[n];
        n := n + 1;
      }
      assert buf[..cb - 1] == s[..cb - 1] == text;
    }
    buf[cb - 1] := 0;
    stray := false;
  }

  function UtoUText(t: seq<bv8>, lim: nat, cap: nat, flags: bv32): Option<seq<bv8>> {
    if Has(flags, FLAG_TRUNCATE) && (cap == 0 || Has(flags, FLAG_ALLOC)) then None
    else match AcceptedU(t, lim, cap, flags)
         case None => None
         case Some(cs) => Some(FlatMap(Bytes, cs))
  }

  /**
   memcpy takes one byte more than the text. That byte is out of bounds exactly when the text taken fills the whole
   memory it was given in, and there is a buffer to copy it to.
   */
  predicate Strays(usz: array?<bv8>, dst: array?<bv8>, cbBuffer: nat, wantStr: bool, flags: bv32, heapOk: bool,
                   text: Option<seq<bv8>>)
  {
    && usz != null && text.Some? && |text.value| == usz.Length
    && var place := Place(flags, wantStr, dst != null, cbBuffer, heapOk, |text.value| + 1);
       place.InHeap? || (place.InBuffer? && dst != usz)
  }

  method DeliverCopy(s: array<bv8>, dst: array?<bv8>, cbBuffer: dword, wantStr: bool, flags: bv32, heapOk: bool,
                     cb: dword)
    returns (ok: bool, usz: array?<bv8>, cbu: nat, stray: bool)
    requires (dst != null ==> cbBuffer <= dst.Length) && 0 < cb <= s.Length + 1
    modifies Cells(dst)
    ensures stray <==> Strays(s, dst, cbBuffer, wantStr, flags, heapOk, Some(old(s[..cb - 1])))
    ensures !stray ==> Replied(dst, cbBuffer, wantStr, flags, heapOk, Some(old(s[..cb - 1])), ok, usz, cbu)
  {
    hide Place, Has;
    var buf;
    buf, ok, usz, cbu := Prepare(dst, cbBuffer, wantStr, flags, heapOk, cb);
    stray := false;
    if buf != null {
      stray := Copy(s, buf, cb);
    }
  }

  method UtoUOf(s: array<bv8>, lim: dword, dst: array?<bv8>, cbBuffer: dword, wantStr: bool, flags: bv32, heapOk: bool)
    returns (ok: bool, out: array?<bv8>, cbu: nat, stray: bool)
    requires lim <= CONVERT_MAXSIZE && Terminated(s[..], 0, lim) && (dst != null ==> cbBuffer <= dst.Length)
    modifies Cells(dst)
    ensures var text := UtoUText(old(s[..Strnlen(s[..], 0, lim)]), lim, cbBuffer, flags);
            && (stray <==> Strays(s, dst, cbBuffer, wantStr, flags, heapOk, text))
            && (!stray ==> Replied(dst, cbBuffer, wantStr, flags, heapOk, text, ok, out, cbu))
  {
    hide AcceptedU, FlatMap, Terminated, Place, Strnlen, Has;
    ghost var t := s[..Strnlen(s[..], 0, lim)];
    if Has(flags, FLAG_TRUNCATE) && (cbBuffer == 0 || Has(flags, FLAG_ALLOC)) {
      out, cbu := FailTail(dst, cbBuffer, wantStr, flags, 0);
      return false, out, cbu, false;
    }
    var counted, cb, cs := CountUtoU(s, lim, cbBuffer, flags);
    if !counted {
      out, cbu := FailTail(dst, cbBuffer, wantStr, flags, 0);
      return false, out, cbu, false;
    }
    assert s[..cb] == t[..cb];
    ok, out, cbu, stray := DeliverCopy(s, dst, cbBuffer, wantStr, flags, heapOk, cb + 1);
  }

  /** `usz` may be `dst`. `stray`: the copy reads outside `usz`; nothing is said of such a call. */
  method UtoU(usz: array?<bv8>, cch: dword, dst: array?<bv8>, cbBuffer: dword, wantStr: bool, flags: bv32, heapOk: bool)
    returns (ok: bool, out: array?<bv8>, cbu: nat, stray: bool)
    requires Readable(usz, 0, cch) && (dst != null ==> cbBuffer <= dst.Length)
    modifies Cells(dst)
    ensures var text := UtoUText(old(Text(usz, 0, cch)), Limit(cch), cbBuffer, flags);
            && (stray <==> Strays(usz, dst, cbBuffer, wantStr, flags, heapOk, text))
            && (!stray ==> Replied(dst, cbBuffer, wantStr, flags, heapOk, text, ok, out, cbu))
  {
    hide UtoUText, Terminated, Place, Strnlen;
    var s := Source(usz, 0, cch);
    TakenIsNoLonger(Text(usz, 0, cch), Limit(cch), cbBuffer, flags);
    ok, out, cbu, stray := UtoUOf(s, Limit(cch), dst, cbBuffer, wantStr, flags, heapOk);
  }

  lemma TakenIsNoLonger(t: seq<bv8>, lim: nat, cap: nat, flags: bv32)
    ensures var text := UtoUText(t, lim, cap, flags); text.Some? ==> |text.value| <= |t|
  {
    hide Framed8, Parse8;
    Parse8Consumes(t, lim);
    var p := Parse8(t, lim);
    AcceptedIsPrefix(Bytes, p, if p.stop.Bad? then p.stop.announced else 0, Has(flags, FLAG_TRUNCATE), cap, false);
    var cs := AcceptedU(t, lim, cap, flags);
    if cs.Some? { FlatMapSplit(Bytes, p.chars, |cs.value|); }
  }

  /** The single letter "a" without a NUL, given with its length: copying it to the heap reads the byte behind it. */
  lemma UnterminatedStrays(usz: array<bv8>)
    requires usz[..] == [0x61]
    ensures var text := UtoUText(Text(usz, 0, 1), 1, 0, FLAG_ALLOC);
            Readable(usz, 0, 1) && Strays(usz, null, 0, true, FLAG_ALLOC, true, text)
  {
    assert usz.Length == |usz[..]| == 1 && usz[0] == usz[..][0] == 0x61;
    var t := Text(usz, 0, 1);
    assert t == [0x61];
    LetterIsWellFormed();
    WellFormedIsCopied(t, 1, 0, FLAG_ALLOC);
    FlagsDiffer();
  }

  lemma LetterIsWellFormed()
    ensures WellFormed8([0x61])
  {
    assert Framed8(One(0x61));
    Parse8Of([One(0x61)], 1);
  }

  lemma FlagsDiffer()
    ensures Has(FLAG_ALLOC, FLAG_ALLOC) && !Has(FLAG_ALLOC, FLAG_TRUNCATE) && !Has(FLAG_ALLOC, FLAG_STR_BUFONLY)
  {
  }

  /** What UtoU does not reject is copied unchanged when nothing forces it to stop early. */
  lemma WellFormedIsCopied(t: seq<bv8>, lim: nat, cap: nat, flags: bv32)
    requires WellFormed8(t) && |t| <= lim && !Has(flags, FLAG_TRUNCATE)
    ensures UtoUText(t, lim, cap, flags) == Some(t)
  {
    hide Framed8, Legal8;
    Parse8Consumes(t, |t|);
    var cs := Parse8(t, |t|).chars;
    Parse8Of(cs, lim);
  }
}
