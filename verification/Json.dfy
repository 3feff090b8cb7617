/** CharUtil_WtoJ of vmm/charutil.c, and what the three converters to JSON mean. */
module Json {
  import opened Transcode
  import opened Unicode
  import opened Narrow
  import opened Wide

  // ---------------------------------------------------------------- WtoJ

  function EmitJson(c: Char16): seq<bv8> {
    if c.Unit? && c.u <= 0x7f then Narrow.Json((c.u & 0xff) as bv8) else Emit8(c)
  }

  /** What the fill of WtoJ stores for a unit `c` that has `prev` before it. */
  function FillJson(prev: bv16, c: bv16): seq<bv8> {
    if c <= 0x7f then Narrow.Json((c & 0xff) as bv8) else FillBytes(prev, c)
  }

  /** What the count pass of WtoJ adds for a single unit beyond one byte. */
  function GrowWtoJ(u: bv16): nat {
    if u > 0x7ff then 2 else if u > 0x7f then 1
    else if u < 0x20 || u == 0x22 || u == 0x5c then
      if u == 0x22 || u == 0x5c || u == 0x08 || u == 0x0c || u == 0x0a || u == 0x0d || u == 0x09 then 1 else 5
    else 0
  }

  lemma FitsUnit(u: bv16)
    requires !Surrogate(u)
    ensures |EmitJson(Unit(u))| == 1 + GrowWtoJ(u) <= 6 && EmitJson(Unit(u)) == FillJson(0, u)
  {
    if u <= 0x7f {
      LowUnitGrows(u);
    } else {
      UnitGrows(u);
      Emit8Filled();
    }
    hide Emit8, FillBytes, Narrow.Json;
  }

  lemma LowUnitGrows(u: bv16)
    requires u <= 0x7f
    ensures |Narrow.Json((u & 0xff) as bv8)| == 1 + GrowWtoJ(u)
  {
    Lengths((u & 0xff) as bv8);
    AsciiAlike(u);
    hide Narrow.Json;
  }

  lemma AsciiAlike(u: bv16)
    requires u <= 0x7f
    ensures GrowJson((u & 0xff) as bv8) == GrowWtoJ(u)
  {
  }

  lemma FitsPair(a: bv16, b: bv16)
    ensures 1 <= |FillJson(a, b)| <= 6
    ensures Surrogate(a) && Surrogate(b) ==> EmitJson(Pair(a, b)) == FillJson(a, b) && |EmitJson(Pair(a, b))| == 4
  {
    Emit8Grows();
    Emit8Filled();
    hide Emit8, FillBytes, Narrow.Json;
    Lengths((b & 0xff) as bv8);
  }

  lemma EmitJsonFits()
    ensures Wide.Growing(EmitJson, GrowWtoJ) && FilledBy(EmitJson, FillJson)
  {
    hide EmitJson, FillJson, Surrogate, GrowWtoJ;
    forall u: bv16 | !Surrogate(u) { FitsUnit(u); }
    forall a: bv16, b: bv16 { FitsPair(a, b); }
  }

  function WtoJText(t: seq<bv16>, lim: nat, cbBuffer: nat, flags: bv32): Option<seq<bv8>> {
    WideText(EmitJson, t, lim, cbBuffer, flags, false)
  }

  method WtoJ(wsz: array?<bv16>, cch: dword, dst: array?<bv8>, cbBuffer: dword, wantStr: bool, flags: bv32,
              heapOk: bool)
    returns (ok: bool, jsz: array?<bv8>, cbj: nat, stray: bool)
    requires Readable(wsz, 0, cch) && (dst != null ==> cbBuffer <= dst.Length)
    modifies Cells(dst)
    ensures RepliedWrapped(dst, cbBuffer, wantStr, flags, heapOk,
                           WtoJText(old(Text(wsz, 0, cch)), Limit(cch), cbBuffer, flags), ok, jsz, cbj, stray)
  {
    EmitJsonFits();
    ok, jsz, cbj, stray := ConvertWide(EmitJson, GrowWtoJ, FillJson, wsz, cch, dst, cbBuffer, wantStr, flags, false,
                                       heapOk);
  }

  // ---------------------------------------------------------------- fusion

  /** Bytes of multi-byte characters pass through the escaping unchanged. */
  lemma {:induction false} HighBytesPass(s: seq<bv8>)
    requires forall b :: b in s ==> b > 0x7f
    ensures FlatMap(Narrow.Json, s) == s
  {
    if |s| > 0 {
      assert s[0] in s;
      HighByte(s[0]);
      hide Narrow.Json;
      assert forall b :: b in s[1..] ==> b in s;
      HighBytesPass(s[1..]);
    }
  }

  lemma HighByte(b: bv8)
    requires b > 0x7f
    ensures Narrow.Json(b) == [b]
  {
  }

  lemma TailsAreHigh(cp: bv32)
    ensures Tail0(cp) > 0x7f && Tail1(cp) > 0x7f && Tail2(cp) > 0x7f && Lead2(cp) > 0x7f && Lead3(cp) > 0x7f
            && Lead4(cp) > 0x7f
  {
  }

  lemma Utf8IsHigh(cp: bv32)
    requires cp > 0x7f
    ensures forall b :: b in Utf8(cp) ==> b > 0x7f
  {
    TailsAreHigh(cp);
    hide Tail0, Tail1, Tail2, Lead2, Lead3, Lead4;
  }

  lemma Utf8IsLow(u: bv16)
    requires u <= 0x7f
    ensures Emit8(Unit(u)) == [(u & 0xff) as bv8]
  {
    assert Widen(u) <= 0x7f && (Widen(u) & 0xff) as bv8 == (u & 0xff) as bv8;
  }

  lemma UnitIsHigh(u: bv16)
    requires u > 0x7f
    ensures Widen(u) > 0x7f
  {
  }

  lemma EmitFuses(c: Char16)
    requires Framed16(c)
    ensures FlatMap(Narrow.Json, Emit8(c)) == EmitJson(c)
  {
    if c.Unit? && c.u <= 0x7f {
      Utf8IsLow(c.u);
      hide Emit8, Narrow.Json;
      FlatMapOne(Narrow.Json, (c.u & 0xff) as bv8);
    } else {
      if c.Unit? { UnitIsHigh(c.u); } else { PairIsLarge(c.first, c.second); }
      Utf8IsHigh(CodePoint16(c));
      HighBytesPass(Emit8(c));
    }
  }

  lemma LatinFuses(c: bv8)
    ensures FlatMap(Narrow.Json, Latin(c)) == LatinJson(c)
  {
    if c > 0x7f {
      LatinIsHigh(c);
      HighBytesPass(Latin(c));
    } else {
      FlatMapOne(Narrow.Json, c);
    }
  }

  lemma LatinIsHigh(c: bv8)
    requires c > 0x7f
    ensures forall b :: b in Latin(c) ==> b > 0x7f
  {
    assert 0xc0 | ((c >> 6) & 0x1f) > 0x7f && 0x80 | (c & 0x3f) > 0x7f;
  }

  /** What UtoJ reads of a text in UTF-8: it stops at its own limit, in the middle of a character if need be. */
  function Cut(u: seq<bv8>): seq<bv8> { if |u| > CONVERT_MAXSIZE then u[..CONVERT_MAXSIZE] else u }

  /** What UtoJ makes of the result of another converter. */
  function ThenUtoJ(u: Option<seq<bv8>>, cbBuffer: nat, flags: bv32): Option<seq<bv8>> {
    match u
    case None => None
    case Some(text) => ExpandedText(Narrow.Json, Special, Cut(text), cbBuffer, flags)
  }

  /** What is reached by converting to UTF-8 first and then to JSON. */
  function ByWayOfU(t: seq<bv16>, lim: nat, cbBuffer: nat, flags: bv32): Option<seq<bv8>> {
    ThenUtoJ(WtoUText(t, lim, cbBuffer, flags), cbBuffer, flags)
  }

  lemma JsonLengths()
    ensures forall c :: |Narrow.Json(c)| >= 1
  {
    hide Narrow.Json;
    forall c { Lengths(c); }
  }

  /** The escaped forms of a text and of its cut form are the same only if nothing is cut off. */
  lemma CutShows(u: seq<bv8>)
    ensures FlatMap(Narrow.Json, u) == FlatMap(Narrow.Json, Cut(u)) <==> |u| <= CONVERT_MAXSIZE
  {
    if |u| > CONVERT_MAXSIZE {
      hide Narrow.Json;
      JsonLengths();
      FlatMapSplit(Narrow.Json, u, CONVERT_MAXSIZE);
      BytesGrow(Narrow.Json, u[CONVERT_MAXSIZE..]);
    }
  }

  /** CHARUTIL_FLAG_BAD_UTF8CP_SOFTFAIL saves a text for WtoU: an ill-formed character after 16 units or more. */
  predicate Softened(t: seq<bv16>, lim: nat, flags: bv32) {
    var p := Parse16(t, lim);
    Has(flags, FLAG_BAD_UTF8CP_SOFTFAIL) && p.stop.Bad? && |FlatMap(Units, p.chars)| >= 0x10
  }

  /**
   Converting UTF-16 to JSON directly, or by way of UTF-8, gives the same bytes and the same failures, except that
   WtoJ does not know the flag that lets WtoU get away with an ill-formed end, and that UtoJ reads no more than
   2^30 bytes of UTF-8.
   */
  lemma WtoJIsUtoJAfterWtoUIff(t: seq<bv16>, lim: nat, cbBuffer: nat, flags: bv32)
    requires !Has(flags, FLAG_TRUNCATE)
    ensures var u := WtoUText(t, lim, cbBuffer, flags);
            WtoJText(t, lim, cbBuffer, flags) == ByWayOfU(t, lim, cbBuffer, flags) <==>
            !Softened(t, lim, flags) && (u.Some? ==> |u.value| <= CONVERT_MAXSIZE)
    ensures Softened(t, lim, flags) ==>
              WtoJText(t, lim, cbBuffer, flags) == None && ByWayOfU(t, lim, cbBuffer, flags).Some?
  {
    hide EmitJson, Emit8, Narrow.Json, Framed16, Cut;
    Parse16Consumes(t, lim);
    var cs := Parse16(t, lim).chars;
    forall c | c in cs { EmitFuses(c); }
    FlatMapFusion(Emit8, Narrow.Json, EmitJson, cs);
    CutShows(FlatMap(Emit8, cs));
  }

  /** Likewise for Latin-1. */
  lemma AtoJIsUtoJAfterAtoUIff(a: seq<bv8>, cbBuffer: nat, flags: bv32)
    requires !Has(flags, FLAG_TRUNCATE)
    ensures ExpandedText(LatinJson, AnyByte, a, cbBuffer, flags) ==
              ThenUtoJ(ExpandedText(Latin, AnyByte, a, cbBuffer, flags), cbBuffer, flags) <==>
            |FlatMap(Latin, a)| <= CONVERT_MAXSIZE
  {
    hide LatinJson, Latin, Narrow.Json, Cut;
    forall c | c in a { LatinFuses(c); }
    FlatMapFusion(Latin, Narrow.Json, LatinJson, a);
    CutShows(FlatMap(Latin, a));
  }

  lemma {:induction false} FlatMapRepeats<S, T>(f: S -> seq<T>, s: seq<S>, c: S)
    requires forall x :: x in s ==> x == c
    ensures |FlatMap(f, s)| == |f(c)| * |s|
  {
    if |s| > 0 {
      assert s[0] in s && forall x :: x in s[1..] ==> x in s;
      FlatMapRepeats(f, s[1..], c);
    }
  }

  /** 2^29 euro signs become 1.5 * 2^30 bytes of UTF-8, and a third of them is cut off on the way to JSON. */
  lemma EurosAreCut(flags: bv32)
    requires !Has(flags, FLAG_TRUNCATE)
    ensures var t := seq(0x2000_0000, _ => 0x20ac); var u := WtoUText(t, 0x2000_0000, 0, flags);
            && u.Some? && |u.value| == 0x6000_0000 && !Softened(t, 0x2000_0000, flags)
            && WtoJText(t, 0x2000_0000, 0, flags) != ByWayOfU(t, 0x2000_0000, 0, flags)
  {
    var t: seq<bv16> := seq(0x2000_0000, _ => 0x20ac);
    OneUnitEach(t, 0x2000_0000);
    var p := Parse16(t, 0x2000_0000);
    assert |Emit8(Unit(0x20ac))| == 3;
    hide Emit8, Parse16;
    FlatMapRepeats(Emit8, p.chars, Unit(0x20ac));
    WtoJIsUtoJAfterWtoUIff(t, 0x2000_0000, 0, flags);
  }

  lemma {:induction false} OneUnitEach(t: seq<bv16>, lim: nat)
    requires |t| <= lim && forall u :: u in t ==> u == 0x20ac
    ensures var p := Parse16(t, lim);
            p.stop == Complete && |p.chars| == |t| && forall c :: c in p.chars ==> c == Unit(0x20ac)
  {
    if |t| > 0 {
      assert t[0] in t && forall u :: u in t[1..] ==> u in t;
      assert !Surrogate(0x20ac);
      OneUnitEach(t[1..], lim - 1);
    }
  }

  /** 2^30 bytes 0xff become 2^31 bytes of UTF-8, of which half is cut off. */
  lemma LatinIsCut(flags: bv32)
    requires !Has(flags, FLAG_TRUNCATE)
    ensures var a := seq(0x4000_0000, _ => 0xff);
            && |FlatMap(Latin, a)| == 0x8000_0000
            && ExpandedText(LatinJson, AnyByte, a, 0, flags) !=
               ThenUtoJ(ExpandedText(Latin, AnyByte, a, 0, flags), 0, flags)
  {
    var a: seq<bv8> := seq(0x4000_0000, _ => 0xff);
    assert |Latin(0xff)| == 2;
    hide Latin, LatinJson;
    FlatMapRepeats(Latin, a, 0xff);
    AtoJIsUtoJAfterAtoUIff(a, 0, flags);
  }

  /** AtoU is the UTF-8 encoding of the code points U+0000 to U+00FF that the bytes stand for. */
  lemma AtoUEncodesLatin1(c: bv8)
    ensures Latin(c) == Utf8(c as bv32)
  {
    if c > 0x7f {
      assert 0x7f < c as bv32 <= 0x7ff;
      assert Lead2(c as bv32) == 0xc0 | ((c >> 6) & 0x1f) && Tail0(c as bv32) == 0x80 | (c & 0x3f);
      hide Lead2, Tail0;
    } else {
      assert c as bv32 <= 0x7f && (c as bv32 & 0xff) as bv8 == c;
    }
  }

  // ---------------------------------------------------------------- sizes of 4 GB and more

  /** A text whose size the converters to JSON get wrong: 2^30 control bytes need 6 GB, the DWORD says 2 GB. */
  lemma SizeOfControlBytesWraps(flags: bv32)
    requires !Has(flags, FLAG_TRUNCATE)
    ensures var t := seq(0x4000_0000, _ => 0x01); var j := ExpandedText(Narrow.Json, Special, t, 0, flags);
            j.Some? && |j.value| + 1 == 0x1_8000_0001 && Wrapped(|j.value| + 1) == 0x8000_0001
  {
    var t: seq<bv8> := seq(0x4000_0000, _ => 0x01);
    assert |Narrow.Json(0x01)| == 6;
    FlatMapRepeats(Narrow.Json, t, 0x01);
  }

  // ---------------------------------------------------------------- unescaping

  function HexValue(d: bv8): Option<bv32> {
    if 0x30 <= d <= 0x39 then Some((d - 0x30) as bv32)
    else if 0x61 <= d <= 0x66 then Some((d - 0x61 + 10) as bv32)
    else if 0x41 <= d <= 0x46 then Some((d - 0x41 + 10) as bv32)
    else None
  }

  function Hex4(s: seq<bv8>): Option<bv32>
    requires |s| == 4
  {
    match (HexValue(s[0]), HexValue(s[1]), HexValue(s[2]), HexValue(s[3]))
    case (Some(a), Some(b), Some(c), Some(d)) => Some((a << 12) | (b << 8) | (c << 4) | d)
    case _ => None
  }

  function Prepend(s: seq<bv8>, rest: Option<seq<bv8>>): Option<seq<bv8>> {
    match rest case None => None case Some(r) => Some(s + r)
  }

  /**
   Reads the inside of a string literal as RFC 8259, section 7, defines it: a raw quote or control byte is an
   error. (An escaped surrogate pair is not needed here and reads as an error, too.)
   */
  function Unescape(j: seq<bv8>): Option<seq<bv8>> {
    if |j| == 0 then Some([])
    else if j[0] == QUOTE || j[0] < 0x20 then None
    else if j[0] != BACKSLASH then Prepend([j[0]], Unescape(j[1..]))
    else if |j| < 2 then None
    else if j[1] == QUOTE || j[1] == BACKSLASH || j[1] == 0x2f then Prepend([j[1]], Unescape(j[2..]))
    else if j[1] == 0x62 then Prepend([0x08], Unescape(j[2..]))
    else if j[1] == 0x66 then Prepend([0x0c], Unescape(j[2..]))
    else if j[1] == 0x6e then Prepend([0x0a], Unescape(j[2..]))
    else if j[1] == 0x72 then Prepend([0x0d], Unescape(j[2..]))
    else if j[1] == 0x74 then Prepend([0x09], Unescape(j[2..]))
    else if j[1] == 0x75 && |j| >= 6 then
      match Hex4(j[2..6])
      case None => None
      case Some(cp) => if Scalar(cp) then Prepend(Utf8(cp), Unescape(j[6..])) else None
    else None
  }

  lemma UnescapePlain(c: bv8, rest: seq<bv8>)
    requires !Special(c)
    ensures Unescape([c] + rest) == Prepend([c], Unescape(rest))
  {
    assert ([c] + rest)[1..] == rest;
  }

  lemma UnescapeShort(c: bv8, rest: seq<bv8>)
    requires Special(c) && Short(c)
    ensures Unescape(EscapeJSON2(c) + rest) == Prepend([c], Unescape(rest))
  {
    var j := EscapeJSON2(c) + rest;
    assert j[0] == EscapeJSON2(c)[0] && j[1] == EscapeJSON2(c)[1] && j[2..] == rest;
  }

  lemma HexBack(c: bv8)
    requires c < 0x20
    ensures Hex4([0x30, 0x30, HexDigit((c >> 4) & 0xf), HexDigit(c & 0xf)]) == Some(c as bv32)
    ensures Utf8(c as bv32) == [c] && Scalar(c as bv32)
  {
    var h, l := (c >> 4) & 0xf, c & 0xf;
    assert h < 2 && l < 16 && (h as bv32 << 4) | l as bv32 == c as bv32;
    HexDigitBack(h);
    HexDigitBack(l);
    hide HexDigit, HexValue;
    HexZero();
    var a: bv32 := 0;
    assert (a << 12) | (a << 8) | (h as bv32 << 4) | l as bv32 == c as bv32;
    assert (c as bv32 & 0xff) as bv8 == c;
  }

  lemma HexZero()
    ensures HexValue(0x30) == Some(0)
  {
  }

  lemma HexDigitBack(h: bv8)
    requires h < 16
    ensures HexValue(HexDigit(h)) == Some(h as bv32)
  {
  }

  lemma UnescapeLong(c: bv8, rest: seq<bv8>)
    requires c < 0x20
    ensures Unescape(EscapeJSON6(c) + rest) == Prepend([c], Unescape(rest))
  {
    HexBack(c);
    hide HexDigit, Utf8, Hex4, Scalar;
    var e, j := EscapeJSON6(c), EscapeJSON6(c) + rest;
    assert j[0] == e[0] && j[1] == e[1] && j[2..6] == e[2..6] && j[6..] == rest;
    assert e[2..6] == [0x30, 0x30, HexDigit((c >> 4) & 0xf), HexDigit(c & 0xf)];
  }

  /** Reading the JSON gives back the text, so the JSON has no raw control byte and no unescaped quote. */
  lemma {:induction false} UnescapeInvertsUtoJ(u: seq<bv8>)
    ensures Unescape(FlatMap(Narrow.Json, u)) == Some(u)
  {
    hide Unescape, EscapeJSON2, EscapeJSON6, Special, Short;
    if |u| == 0 {
      UnescapeNothing();
    } else {
      var c, rest := u[0], FlatMap(Narrow.Json, u[1..]);
      UnescapeInvertsUtoJ(u[1..]);
      if !Special(c) {
        UnescapePlain(c, rest);
      } else if Short(c) {
        UnescapeShort(c, rest);
      } else {
        LongIsControl(c);
        UnescapeLong(c, rest);
      }
      assert u == [c] + u[1..];
    }
  }

  lemma UnescapeNothing()
    ensures Unescape([]) == Some([])
  {
  }

  lemma LongIsControl(c: bv8)
    requires Special(c) && !Short(c)
    ensures c < 0x20
  {
  }
}
