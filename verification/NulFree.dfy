/**
 The round trips as callers make them: the second converter finds the end of the first one's result by its NUL,
 so the result must not contain another one.
 */
module NulFree {
  import opened Transcode
  import opened Unicode
  import opened Narrow
  import opened Wide
  import opened RoundTrip
  import Json

  lemma {:induction false} EndsAtNul<T>(mem: seq<T>, zero: T, text: seq<T>, lim: nat)
    requires zero !in text && |text| < |mem| && mem[..|text| + 1] == text + [zero]
    ensures Strnlen(mem, zero, lim) == if |text| <= lim then |text| else lim
  {
    if |text| > 0 {
      assert mem[0] == mem[..|text| + 1][0] == text[0] && text[0] in text;
      assert mem[1..][..|text|] == mem[..|text| + 1][1..] == text[1..] + [zero];
      if lim > 0 { EndsAtNul(mem[1..], zero, text[1..], lim - 1); }
    } else {
      assert mem[0] == mem[..1][0] == zero;
    }
  }

  lemma {:induction false} NoneAdded<S, T>(f: S -> seq<T>, s: seq<S>, zero: T)
    requires forall x :: x in s ==> zero !in f(x)
    ensures zero !in FlatMap(f, s)
  {
    if |s| > 0 { NoneAdded(f, s[1..], zero); }
  }

  lemma OnlyNulIsZero(cp: bv32)
    requires Scalar(cp) && cp != 0
    ensures 0 !in Utf8(cp)
  {
    TailsAreNotZero(cp);
    if cp <= 0x7f { LowIsNotZero(cp); }
    hide Tail0, Tail1, Tail2, Lead2, Lead3, Lead4, Scalar;
  }

  lemma TailsAreNotZero(cp: bv32)
    ensures Tail0(cp) != 0 && Tail1(cp) != 0 && Tail2(cp) != 0 && Lead2(cp) != 0 && Lead3(cp) != 0 && Lead4(cp) != 0
  {
  }

  lemma LowIsNotZero(cp: bv32)
    requires 0 < cp <= 0x7f
    ensures (cp & 0xff) as bv8 != 0
  {
  }

  lemma WidenNotZero(u: bv16)
    ensures u != 0 ==> Widen(u) != 0
  {
  }

  lemma PairNotZero(first: bv16, second: bv16)
    requires LegalUnits(first, second)
    ensures PairPoint(first, second) != 0
  {
  }

  lemma UnitsHold(cs: seq<Char16>, c: Char16)
    requires c in cs
    ensures forall u :: u in Units(c) ==> u in FlatMap(Units, cs)
    decreases |cs|
  {
    if c != cs[0] { UnitsHold(cs[1..], c); }
  }

  lemma BytesHold(cs: seq<Char8>, c: Char8)
    requires c in cs
    ensures forall b :: b in Bytes(c) ==> b in FlatMap(Bytes, cs)
    decreases |cs|
  {
    hide Bytes;
    if c != cs[0] { BytesHold(cs[1..], c); }
  }

  lemma CharHasNoNul16(c: Char16)
    requires Legal16(c) && 0 !in Units(c)
    ensures 0 !in Emit8(c)
  {
    hide Utf8, Widen, PairPoint;
    Legal16IsEncoding(c);
    if c.Unit? {
      WidenNotZero(c.u);
    } else {
      PairNotZero(c.first, c.second);
    }
    OnlyNulIsZero(CodePoint16(c));
  }

  /** UTF-16 without NUL becomes UTF-8 without NUL. */
  lemma WtoUAddsNoNul(w: seq<bv16>, lim: nat, cbBuffer: nat, flags: bv32)
    requires WellFormed16(w) && |w| <= lim && !Has(flags, FLAG_TRUNCATE) && 0 !in w
    ensures var u := WtoUText(w, lim, cbBuffer, flags); u.Some? && 0 !in u.value
  {
    hide Emit8, Legal16, Units;
    var cs := Parse16(w, |w|).chars;
    WellFormedChars16(w, lim);
    Parse16Consumes(w, |w|);
    forall c | c in cs ensures 0 !in Emit8(c) {
      UnitsHold(cs, c);
      CharHasNoNul16(c);
    }
    NoneAdded(Emit8, cs, 0);
  }

  /**
   A buffer that holds the NUL-terminated result of WtoU for a NUL-free text, read by UtoW up to its terminator,
   gives that text back.
   */
  lemma ThroughUtf8Buffer(w: seq<bv16>, cch: dword, cbBuffer: nat, flags: bv32, mem: seq<bv8>, cch': dword, room: nat)
    requires WellFormed16(w) && |w| <= Limit(cch) && 3 * |w| <= Limit(cch') && !Has(flags, FLAG_TRUNCATE) && 0 !in w
    requires var u := WtoUText(w, Limit(cch), cbBuffer, flags);
             u.Some? && |u.value| < |mem| && mem[..|u.value| + 1] == u.value + [0]
    ensures UtoWText(mem[..Strnlen(mem, 0, Limit(cch'))], Limit(cch'), room, flags) == Some(w)
  {
    hide WellFormed16, WellFormed8, WtoUText, UtoWText;
    UtoWInvertsWtoU(w, Limit(cch), Limit(cch'), cbBuffer, room, flags);
    WtoUAddsNoNul(w, Limit(cch), cbBuffer, flags);
    var u := WtoUText(w, Limit(cch), cbBuffer, flags).value;
    EndsAtNul(mem, 0, u, Limit(cch'));
    assert mem[..|u| + 1][..|u|] == mem[..|u|];
  }

  /**
   The same buffer, read by UtoJ up to its terminator or to UtoJ's own limit, gives what WtoJ makes of the text
   exactly when the limit does not come first.
   */
  lemma ThroughJsonBufferIff(w: seq<bv16>, cch: dword, cbBuffer: nat, flags: bv32, mem: seq<bv8>)
    requires WellFormed16(w) && |w| <= Limit(cch) && !Has(flags, FLAG_TRUNCATE) && 0 !in w
    requires var u := WtoUText(w, Limit(cch), cbBuffer, flags);
             u.Some? && |u.value| < |mem| && mem[..|u.value| + 1] == u.value + [0]
    ensures ExpandedText(Narrow.Json, Special, mem[..Strnlen(mem, 0, CONVERT_MAXSIZE)], cbBuffer, flags) ==
              Json.WtoJText(w, Limit(cch), cbBuffer, flags) <==>
            |WtoUText(w, Limit(cch), cbBuffer, flags).value| <= CONVERT_MAXSIZE
  {
    hide WellFormed16, WtoUText, ExpandedText, Json.WtoJText, Json.Softened;
    WtoUAddsNoNul(w, Limit(cch), cbBuffer, flags);
    var u := WtoUText(w, Limit(cch), cbBuffer, flags).value;
    EndsAtNul(mem, 0, u, CONVERT_MAXSIZE);
    assert mem[..|u| + 1][..|u|] == mem[..|u|] == u;
    assert mem[..Strnlen(mem, 0, CONVERT_MAXSIZE)] == Json.Cut(u);
    NeverSoftened(w, Limit(cch), flags);
    Json.WtoJIsUtoJAfterWtoUIff(w, Limit(cch), cbBuffer, flags);
  }

  lemma NeverSoftened(w: seq<bv16>, lim: nat, flags: bv32)
    requires WellFormed16(w) && |w| <= lim
    ensures !Json.Softened(w, lim, flags)
  {
    WellFormedChars16(w, lim);
  }

  lemma WideNotZero(cp: bv32)
    requires Scalar(cp) && cp != 0
    ensures 0 !in WideOf(cp)
  {
    if cp >= 0x10000 { PairBack(cp); } else { OneNotZero(cp); }
    hide HighSurrogate, LowSurrogate, OneUnit, Scalar;
  }

  lemma OneNotZero(cp: bv32)
    requires 0 < cp < 0x10000
    ensures OneUnit(cp) != 0
  {
  }

  lemma CharHasNoNul8(c: Char8)
    requires Legal8(c) && 0 !in Bytes(c)
    ensures 0 !in Emit16(c)
  {
    hide WideOf, Legal8, CodePoint8;
    Legal8IsEncoding(c);
    var cp := CodePoint8(c);
    ZeroIsNul();
    assert cp != 0;
    WideNotZero(cp);
  }

  lemma ZeroIsNul()
    ensures 0 in Bytes(Char8Of(0))
  {
    assert Bytes(Char8Of(0))[0] == 0;
  }

  lemma UtoWAddsNoNul(u: seq<bv8>, lim: nat, room: nat, flags: bv32)
    requires WellFormed8(u) && |u| <= lim && !Has(flags, FLAG_TRUNCATE) && 0 !in u
    ensures var w := UtoWText(u, lim, room, flags); w.Some? && 0 !in w.value
  {
    hide Emit16, Legal8, Bytes;
    var cs := Parse8(u, |u|).chars;
    WellFormedChars8(u, lim);
    Parse8Consumes(u, |u|);
    forall c | c in cs ensures 0 !in Emit16(c) {
      BytesHold(cs, c);
      CharHasNoNul8(c);
    }
    NoneAdded(Emit16, cs, 0);
  }

  /** The same for UTF-8 by way of a UTF-16 buffer. */
  lemma ThroughWideBuffer(u: seq<bv8>, cch: dword, room: nat, flags: bv32, mem: seq<bv16>, cch': dword, cbBuffer: nat)
    requires WellFormed8(u) && |u| <= Limit(cch) && |u| <= Limit(cch') && !Has(flags, FLAG_TRUNCATE) && 0 !in u
    requires var w := UtoWText(u, Limit(cch), room, flags);
             w.Some? && |w.value| < |mem| && mem[..|w.value| + 1] == w.value + [0]
    ensures WtoUText(mem[..Strnlen(mem, 0, Limit(cch'))], Limit(cch'), cbBuffer, flags) == Some(u)
  {
    hide WellFormed16, WellFormed8, WtoUText, UtoWText;
    BackFromWide(u, Limit(cch), Limit(cch'), cbBuffer, room, flags);
    UtoWAddsNoNul(u, Limit(cch), room, flags);
    var w := UtoWText(u, Limit(cch), room, flags).value;
    EndsAtNul(mem, 0, w, Limit(cch'));
    assert mem[..|w| + 1][..|w|] == mem[..|w|];
  }

  /** The result of UtoW does not depend on the character limit as long as it takes in the whole text. */
  lemma BackFromWide(u: seq<bv8>, lim: nat, lim': nat, cbBuffer: nat, room: nat, flags: bv32)
    requires WellFormed8(u) && |u| <= lim && |u| <= lim' && !Has(flags, FLAG_TRUNCATE)
    ensures var w := UtoWText(u, lim, room, flags);
            w.Some? && |w.value| <= |u| && WtoUText(w.value, lim', cbBuffer, flags) == Some(u)
  {
    WtoUInvertsUtoW(u, lim', cbBuffer, room, flags);
    WellFormedChars8(u, lim);
    WellFormedChars8(u, lim');
  }
}
