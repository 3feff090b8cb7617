/**
 UTF-8 (RFC 3629) and UTF-16 (RFC 2781) at the level of whole characters. A character is kept as its
 code units, so that the bit patterns of the two encoding forms meet only inside small functions.
 */
module Unicode {
  import opened Transcode

  /** Code points that RFC 3629, section 3, allows in UTF-8. */
  predicate Scalar(cp: bv32) { cp <= 0x10ffff && !(0xd800 <= cp <= 0xdfff) }

  datatype Char8 =
    | One(a: bv8)
    | Two(a: bv8, b: bv8)
    | Three(a: bv8, b: bv8, c: bv8)
    | Four(a: bv8, b: bv8, c: bv8, d: bv8)

  datatype Char16 = Unit(u: bv16) | Pair(first: bv16, second: bv16)

  function Bytes(c: Char8): seq<bv8> {
    match c
    case One(a) => [a]
    case Two(a, b) => [a, b]
    case Three(a, b, c) => [a, b, c]
    case Four(a, b, c, d) => [a, b, c, d]
  }

  function Units(c: Char16): seq<bv16> {
    match c
    case Unit(u) => [u]
    case Pair(first, second) => [first, second]
  }

  // ---------------------------------------------------------------- encoding

  function Tail0(cp: bv32): bv8 { 0x80 | (cp & 0x3f) as bv8 }
  function Tail1(cp: bv32): bv8 { 0x80 | ((cp >> 6) & 0x3f) as bv8 }
  function Tail2(cp: bv32): bv8 { 0x80 | ((cp >> 12) & 0x3f) as bv8 }
  function Lead2(cp: bv32): bv8 { 0xc0 | ((cp >> 6) & 0x1f) as bv8 }
  function Lead3(cp: bv32): bv8 { 0xe0 | ((cp >> 12) & 0x0f) as bv8 }
  function Lead4(cp: bv32): bv8 { 0xf0 | ((cp >> 18) & 0x0f) as bv8 }

  /** The table of RFC 3629, section 3. */
  function Char8Of(cp: bv32): Char8 {
    if cp <= 0x7f then One((cp & 0xff) as bv8)
    else if cp <= 0x7ff then Two(Lead2(cp), Tail0(cp))
    else if cp <= 0xffff then Three(Lead3(cp), Tail1(cp), Tail0(cp))
    else Four(Lead4(cp), Tail2(cp), Tail1(cp), Tail0(cp))
  }

  function Utf8(cp: bv32): seq<bv8> { Bytes(Char8Of(cp)) }

  function HighSurrogate(cp: bv32): bv16 { 0xd800 + (((cp - 0x10000) >> 10) & 0xffff) as bv16 }
  function LowSurrogate(cp: bv32): bv16 { 0xdc00 + ((cp - 0x10000) & 0x3ff) as bv16 }

  function OneUnit(cp: bv32): bv16 { (cp & 0xffff) as bv16 }

  /** RFC 2781, section 2.1. */
  function Char16Of(cp: bv32): Char16 {
    if cp < 0x10000 then Unit(OneUnit(cp)) else Pair(HighSurrogate(cp), LowSurrogate(cp))
  }

  // ---------------------------------------------------------------- decoding

  function Point2(a: bv8, b: bv8): bv32 { ((a & 0x1f) as bv32 << 6) | (b & 0x3f) as bv32 }
  function Point3(a: bv8, b: bv8, c: bv8): bv32 {
    ((a & 0x0f) as bv32 << 12) | ((b & 0x3f) as bv32 << 6) | (c & 0x3f) as bv32
  }
  function Point4(a: bv8, b: bv8, c: bv8, d: bv8): bv32 {
    ((a & 0x07) as bv32 << 18) | ((b & 0x3f) as bv32 << 12) | ((c & 0x3f) as bv32 << 6) | (d & 0x3f) as bv32
  }

  function CodePoint8(c: Char8): bv32 {
    match c
    case One(a) => a as bv32
    case Two(a, b) => Point2(a, b)
    case Three(a, b, c) => Point3(a, b, c)
    case Four(a, b, c, d) => Point4(a, b, c, d)
  }

  predicate Surrogate(u: bv16) { 0xd800 <= u <= 0xdfff }

  /** RFC 2781, section 2.2, for a high surrogate followed by a low one; defined for any two surrogates. */
  function PairPoint(first: bv16, second: bv16): bv32 {
    0x10000 + (((first as bv32 - 0xd800) << 10) | ((second as bv32 - 0xdc00) & 0x3ff))
  }

  function Widen(u: bv16): bv32 { u as bv32 }

  function CodePoint16(c: Char16): bv32 {
    match c
    case Unit(u) => Widen(u)
    case Pair(first, second) => PairPoint(first, second)
  }

  // ---------------------------------------------------------------- well-formed characters

  predicate IsTail(b: bv8) { b & 0xc0 == 0x80 }

  /** How long a lead byte says its character is, 0 for a byte that cannot lead. */
  function Announced(a: bv8): (n: nat)
    ensures n <= 4
  {
    if a & 0x80 == 0 then 1
    else if a & 0xe0 == 0xc0 then 2
    else if a & 0xf0 == 0xe0 then 3
    else if a & 0xf8 == 0xf0 then 4 else 0
  }

  /** The bytes that can lead a character, by the length they announce, and those that cannot. */
  lemma AnnouncedRanges(a: bv8)
    ensures Announced(a) == 1 <==> a <= 0x7f
    ensures Announced(a) == 2 <==> 0xc0 <= a <= 0xdf
    ensures Announced(a) == 3 <==> 0xe0 <= a <= 0xef
    ensures Announced(a) == 4 <==> 0xf0 <= a <= 0xf7
    ensures Announced(a) == 0 <==> 0x80 <= a <= 0xbf || 0xf8 <= a
    ensures IsTail(a) <==> 0x80 <= a <= 0xbf
  {
  }

  /** What the count passes check: a lead byte and the right number of tail bytes. */
  predicate Framed8(c: Char8) {
    match c
    case One(a) => Announced(a) == 1
    case Two(a, b) => Announced(a) == 2 && IsTail(b)
    case Three(a, b, c) => Announced(a) == 3 && IsTail(b) && IsTail(c)
    case Four(a, b, c, d) => Announced(a) == 4 && IsTail(b) && IsTail(c) && IsTail(d)
  }

  // The grammar of RFC 3629, section 4, one shape at a time.
  predicate LegalBytes2(a: bv8, b: bv8) { 0xc2 <= a <= 0xdf && 0x80 <= b <= 0xbf }
  predicate LegalBytes3(a: bv8, b: bv8, c: bv8) {
    && 0x80 <= c <= 0xbf
    && (|| (a == 0xe0 && 0xa0 <= b <= 0xbf) || (0xe1 <= a <= 0xec && 0x80 <= b <= 0xbf)
        || (a == 0xed && 0x80 <= b <= 0x9f) || (0xee <= a <= 0xef && 0x80 <= b <= 0xbf))
  }
  predicate LegalBytes4(a: bv8, b: bv8, c: bv8, d: bv8) {
    && 0x80 <= c <= 0xbf && 0x80 <= d <= 0xbf
    && (|| (a == 0xf0 && 0x90 <= b <= 0xbf) || (0xf1 <= a <= 0xf3 && 0x80 <= b <= 0xbf)
        || (a == 0xf4 && 0x80 <= b <= 0x8f))
  }

  predicate Legal8(c: Char8) {
    match c
    case One(a) => a <= 0x7f
    case Two(a, b) => LegalBytes2(a, b)
    case Three(a, b, c) => LegalBytes3(a, b, c)
    case Four(a, b, c, d) => LegalBytes4(a, b, c, d)
  }

  predicate Framed16(c: Char16) {
    match c
    case Unit(u) => !Surrogate(u)
    case Pair(first, second) => Surrogate(first) && Surrogate(second)
  }

  /** A high surrogate comes first and a low one second. */
  predicate LegalUnits(first: bv16, second: bv16) { 0xd800 <= first <= 0xdbff && 0xdc00 <= second <= 0xdfff }

  predicate Legal16(c: Char16) {
    match c
    case Unit(u) => !Surrogate(u)
    case Pair(first, second) => LegalUnits(first, second)
  }

  // The bit arithmetic, one shape at a time.

  lemma Point2Back(cp: bv32)
    requires 0x7f < cp <= 0x7ff
    ensures Point2(Lead2(cp), Tail0(cp)) == cp && LegalBytes2(Lead2(cp), Tail0(cp))
  {
  }

  lemma Point3Back(cp: bv32)
    requires 0x7ff < cp <= 0xffff && Scalar(cp)
    ensures Point3(Lead3(cp), Tail1(cp), Tail0(cp)) == cp && LegalBytes3(Lead3(cp), Tail1(cp), Tail0(cp))
  {
  }

  lemma Point4Back(cp: bv32)
    requires 0xffff < cp <= 0x10ffff
    ensures Point4(Lead4(cp), Tail2(cp), Tail1(cp), Tail0(cp)) == cp
    ensures LegalBytes4(Lead4(cp), Tail2(cp), Tail1(cp), Tail0(cp))
  {
  }

  lemma Legal2(a: bv8, b: bv8)
    requires LegalBytes2(a, b)
    ensures var p := Point2(a, b);
            0x7f < p <= 0x7ff && a == Lead2(p) && b == Tail0(p)
  {
  }

  lemma Legal3(a: bv8, b: bv8, c: bv8)
    requires LegalBytes3(a, b, c)
    ensures var p := Point3(a, b, c);
            0x7ff < p <= 0xffff && Scalar(p) && a == Lead3(p) && b == Tail1(p) && c == Tail0(p)
  {
  }

  lemma Legal4(a: bv8, b: bv8, c: bv8, d: bv8)
    requires LegalBytes4(a, b, c, d)
    ensures var p := Point4(a, b, c, d);
            0xffff < p <= 0x10ffff && a == Lead4(p) && b == Tail2(p) && c == Tail1(p) && d == Tail0(p)
  {
  }

  lemma PairBack(cp: bv32)
    requires 0x10000 <= cp <= 0x10ffff
    ensures PairPoint(HighSurrogate(cp), LowSurrogate(cp)) == cp
    ensures 0xd800 <= HighSurrogate(cp) <= 0xdbff && 0xdc00 <= LowSurrogate(cp) <= 0xdfff
  {
  }

  lemma LegalPair(first: bv16, second: bv16)
    requires LegalUnits(first, second)
    ensures var p := PairPoint(first, second);
            0x10000 <= p <= 0x10ffff && first == HighSurrogate(p) && second == LowSurrogate(p)
  {
  }

  lemma UnitPoint(u: bv16)
    ensures Widen(u) < 0x10000 && OneUnit(Widen(u)) == u && (Scalar(Widen(u)) <==> !Surrogate(u))
  {
  }

  lemma UnitBack(cp: bv32)
    requires Scalar(cp) && cp < 0x10000
    ensures Widen(OneUnit(cp)) == cp && !Surrogate(OneUnit(cp))
  {
  }

  lemma LegalIsFramed(c: Char8)
    requires Legal8(c)
    ensures Framed8(c)
  {
    match c
    case One(a) =>
    case Two(a, b) =>
    case Three(a, b, c) =>
    case Four(a, b, c, d) =>
  }

  // The grammars describe exactly the encodings of scalar values: nothing overlong, no stray surrogate.

  lemma Char8RoundTrip(cp: bv32)
    requires Scalar(cp)
    ensures CodePoint8(Char8Of(cp)) == cp && Legal8(Char8Of(cp))
  {
    if cp <= 0x7f {
    } else if cp <= 0x7ff {
      Point2Back(cp);
    } else if cp <= 0xffff {
      Point3Back(cp);
    } else {
      Point4Back(cp);
    }
  }

  lemma Legal8IsEncoding(c: Char8)
    ensures Legal8(c) <==> Scalar(CodePoint8(c)) && c == Char8Of(CodePoint8(c))
  {
    hide Point2, Point3, Point4, Lead2, Lead3, Lead4, Tail0, Tail1, Tail2, LegalBytes2, LegalBytes3, LegalBytes4;
    if Scalar(CodePoint8(c)) && c == Char8Of(CodePoint8(c)) {
      Char8RoundTrip(CodePoint8(c));
    } else if Legal8(c) {
      match c
      case One(a) =>
      case Two(a, b) => Legal2(a, b);
      case Three(a, b, c) => Legal3(a, b, c);
      case Four(a, b, c, d) => Legal4(a, b, c, d);
    }
  }

  lemma Char16RoundTrip(cp: bv32)
    requires Scalar(cp)
    ensures CodePoint16(Char16Of(cp)) == cp && Legal16(Char16Of(cp))
  {
    if cp >= 0x10000 { PairBack(cp); } else { UnitBack(cp); }
  }

  lemma UnitEncodes(u: bv16)
    requires !Surrogate(u)
    ensures Scalar(CodePoint16(Unit(u))) && Unit(u) == Char16Of(CodePoint16(Unit(u)))
  {
    UnitPoint(u);
  }

  lemma PairEncodes(first: bv16, second: bv16)
    requires LegalUnits(first, second)
    ensures var c := Pair(first, second); Scalar(CodePoint16(c)) && c == Char16Of(CodePoint16(c))
  {
    LegalPair(first, second);
    hide PairPoint, HighSurrogate, LowSurrogate, LegalUnits;
  }

  lemma Legal16Encodes(c: Char16)
    requires Legal16(c)
    ensures Scalar(CodePoint16(c)) && c == Char16Of(CodePoint16(c))
  {
    hide Scalar, CodePoint16, Char16Of, Surrogate, LegalUnits;
    match c
    case Unit(u) => UnitEncodes(u);
    case Pair(first, second) => PairEncodes(first, second);
  }

  lemma Legal16IsEncoding(c: Char16)
    ensures Legal16(c) <==> Scalar(CodePoint16(c)) && c == Char16Of(CodePoint16(c))
  {
    hide Scalar, CodePoint16, Char16Of, Legal16;
    if Legal16(c) { Legal16Encodes(c); }
    if Scalar(CodePoint16(c)) { Char16RoundTrip(CodePoint16(c)); }
  }

  // ---------------------------------------------------------------- texts

  /** Where a forward pass over a text ends. */
  datatype Stop =
    | Complete               // at the end of the text
    | Cut                    // at a character that the caller's character count cuts in two
    | Bad(announced: nat)    // at an ill-formed character; 0 if not even its length is known

  datatype Parsed<C> = Parsed(chars: seq<C>, stop: Stop)

  function CharAt(t: seq<bv8>, n: nat): Char8
    requires 1 <= n <= 4 && n <= |t|
  {
    if n == 1 then One(t[0]) else if n == 2 then Two(t[0], t[1])
    else if n == 3 then Three(t[0], t[1], t[2]) else Four(t[0], t[1], t[2], t[3])
  }

  /** The characters of the bytes `t` before a NUL or the end of the `room` bytes the caller allows. */
  function Parse8(t: seq<bv8>, room: nat): Parsed<Char8> {
    if |t| == 0 then Parsed([], Complete)
    else
      var n := Announced(t[0]);
      if n == 0 then Parsed([], Bad(0))
      else if n > room then Parsed([], Cut)
      else if n > |t| || !Framed8(CharAt(t, n)) then Parsed([], Bad(n))
      else
        var rest := Parse8(t[n..], room - n);
        Parsed([CharAt(t, n)] + rest.chars, rest.stop)
  }

  function Parse16(t: seq<bv16>, room: nat): Parsed<Char16> {
    if |t| == 0 then Parsed([], Complete)
    else if !Surrogate(t[0]) then
      var rest := Parse16(t[1..], if room > 0 then room - 1 else 0);
      Parsed([Unit(t[0])] + rest.chars, rest.stop)
    else if room < 2 then Parsed([], Cut)
    else if |t| < 2 || !Surrogate(t[1]) then Parsed([], Bad(4))
    else
      var rest := Parse16(t[2..], room - 2);
      Parsed([Pair(t[0], t[1])] + rest.chars, rest.stop)
  }

  predicate AllFramed8(cs: seq<Char8>) { forall c :: c in cs ==> Framed8(c) }
  predicate AllFramed16(cs: seq<Char16>) { forall c :: c in cs ==> Framed16(c) }

  lemma CharAtBytes(t: seq<bv8>, n: nat)
    requires 1 <= n <= 4 && n <= |t|
    ensures t == Bytes(CharAt(t, n)) + t[n..]
  {
    if n == 1 {
    } else if n == 2 {
    } else if n == 3 {
    } else {
    }
  }

  lemma {:induction false} Parse8Consumes(t: seq<bv8>, room: nat)
    ensures var p := Parse8(t, room);
            && AllFramed8(p.chars) && FlatMap(Bytes, p.chars) <= t
            && (p.stop.Complete? ==> FlatMap(Bytes, p.chars) == t)
  {
    if |Parse8(t, room).chars| > 0 {
      var n := Announced(t[0]);
      assert 1 <= n <= 4 && n <= |t| && n <= room && Framed8(CharAt(t, n));
      hide CharAt, Framed8, Announced, Bytes;
      var head, rest := CharAt(t, n), Parse8(t[n..], room - n);
      Parse8Consumes(t[n..], room - n);
      assert ([head] + rest.chars)[1..] == rest.chars;
      assert FlatMap(Bytes, [head] + rest.chars) == Bytes(head) + FlatMap(Bytes, rest.chars);
      CharAtBytes(t, n);
    }
  }

  lemma {:induction false} Parse16Consumes(t: seq<bv16>, room: nat)
    ensures var p := Parse16(t, room);
            && AllFramed16(p.chars) && FlatMap(Units, p.chars) <= t
            && (p.stop.Complete? ==> FlatMap(Units, p.chars) == t)
  {
    var p := Parse16(t, room);
    if |p.chars| > 0 {
      var n, r := |Units(p.chars[0])|, if room > 0 then room - 1 else 0;
      if n == 1 { Parse16Consumes(t[1..], r); } else { Parse16Consumes(t[2..], room - 2); }
      assert p.chars[1..] == if n == 1 then Parse16(t[1..], r).chars else Parse16(t[2..], room - 2).chars;
      assert t[..n] == Units(p.chars[0]) && t == t[..n] + t[n..];
    }
  }

  lemma FramedLength(c: Char8, rest: seq<bv8>)
    requires Framed8(c)
    ensures var n, t := |Bytes(c)|, Bytes(c) + rest;
            1 <= n <= 4 && t[0] == c.a && Announced(c.a) == n && CharAt(t, n) == c && t[n..] == rest
  {
  }

  /** A text put together from framed characters is read back as those characters. */
  lemma {:induction false} Parse8Of(cs: seq<Char8>, room: nat)
    requires AllFramed8(cs) && room >= |FlatMap(Bytes, cs)|
    ensures Parse8(FlatMap(Bytes, cs), room) == Parsed(cs, Complete)
  {
    hide Framed8, CharAt, Announced, Bytes;
    if |cs| > 0 {
      var c, rest, n := cs[0], FlatMap(Bytes, cs[1..]), |Bytes(cs[0])|;
      assert c in cs;
      FramedLength(c, rest);
      Parse8Of(cs[1..], room - n);
      assert Parse8(Bytes(c) + rest, room) == Parsed([c] + cs[1..], Complete);
    }
  }

  lemma {:induction false} Parse16Of(cs: seq<Char16>, room: nat)
    requires AllFramed16(cs) && room >= |FlatMap(Units, cs)|
    ensures Parse16(FlatMap(Units, cs), room) == Parsed(cs, Complete)
  {
    if |cs| > 0 {
      var t, rest := FlatMap(Units, cs), FlatMap(Units, cs[1..]);
      assert cs == [cs[0]] + cs[1..] && Framed16(cs[0]);
      match cs[0]
      case Unit(u) =>
        assert t == [u] + rest && t[1..] == rest;
        Parse16Of(cs[1..], room - 1);
        assert Parse16(t, room).chars == [Unit(u)] + cs[1..];
      case Pair(first, second) =>
        assert t == [first, second] + rest && t[2..] == rest;
        Parse16Of(cs[1..], room - 2);
        assert Parse16(t, room).chars == [Pair(first, second)] + cs[1..];
    }
  }

  /** UTF-8 as RFC 3629, section 4, defines it. */
  predicate WellFormed8(t: seq<bv8>) {
    var p := Parse8(t, |t|);
    p.stop.Complete? && forall c :: c in p.chars ==> Legal8(c)
  }

  /** UTF-16 in which every high surrogate is followed by a low one and no low one stands alone. */
  predicate WellFormed16(t: seq<bv16>) {
    var p := Parse16(t, |t|);
    p.stop.Complete? && forall c :: c in p.chars ==> Legal16(c)
  }

  /** The decoder of RFC 2781, section 2.2, written unit by unit. */
  function Decode16(t: seq<bv16>): seq<bv32> {
    if |t| == 0 then []
    else if |t| >= 2 && LegalUnits(t[0], t[1]) then [PairPoint(t[0], t[1])] + Decode16(t[2..])
    else [Widen(t[0])] + Decode16(t[1..])
  }

  /**
   What a count pass accepts of a parsed text: all its characters, or under truncation those that fit.
   The character it stopped at is an error unless it is forgiven (`soft`) or would not have fit anyway;
   `need` is the room that character would have taken, 0 if it is rejected on sight.
   */
  function Accepted<C, T>(f: C -> seq<T>, p: Parsed<C>, need: nat, truncate: bool, cap: nat,
                          soft: bool): Option<seq<C>> {
    var k := if truncate then FitWrapped(f, p.chars, 0, cap) else |p.chars|;
    if k < |p.chars| then Some(p.chars[..k])
    else if p.stop.Bad? && !soft && (need == 0 || !truncate || !Over(|FlatMap(f, p.chars)| + need, cap)) then None
    else Some(p.chars)
  }
}
