/** What the converters between UTF-16 and UTF-8 mean, and that they undo each other. */
module RoundTrip {
  import opened Transcode
  import opened Unicode
  import opened Wide

  predicate AllLegal16(cs: seq<Char16>) { forall c :: c in cs ==> Legal16(c) }
  predicate AllLegal8(cs: seq<Char8>) { forall c :: c in cs ==> Legal8(c) }

  // The same character in the other encoding form.
  function To8(c: Char16): seq<Char8> { [Char8Of(CodePoint16(c))] }
  function To16(c: Char8): seq<Char16> { [Char16Of(CodePoint8(c))] }

  lemma CharThere(c: Char16)
    requires Legal16(c)
    ensures var d := Char8Of(CodePoint16(c)); Legal8(d) && Bytes(d) == Emit8(c) && Emit16(d) == Units(c)
  {
    hide Legal16, Legal8, Scalar, CodePoint16, CodePoint8, Char8Of, HighSurrogate, LowSurrogate, OneUnit;
    Legal16IsEncoding(c);
    Char8RoundTrip(CodePoint16(c));
  }

  lemma CharBack(c: Char8)
    requires Legal8(c)
    ensures var d := Char16Of(CodePoint8(c)); Legal16(d) && Units(d) == Emit16(c) && Emit8(d) == Bytes(c)
  {
    hide Legal16, Legal8, Scalar, CodePoint16, CodePoint8, Char8Of, HighSurrogate, LowSurrogate, OneUnit;
    Legal8IsEncoding(c);
    Char16RoundTrip(CodePoint8(c));
  }

  /** A well-formed text is its characters, whatever limit beyond its end the caller gives. */
  lemma WellFormedChars16(w: seq<bv16>, lim: nat)
    requires WellFormed16(w) && |w| <= lim
    ensures var cs := Parse16(w, |w|).chars;
            AllLegal16(cs) && AllFramed16(cs) && FlatMap(Units, cs) == w && Parse16(w, lim) == Parsed(cs, Complete)
  {
    Parse16Consumes(w, |w|);
    Parse16Of(Parse16(w, |w|).chars, lim);
  }

  lemma WellFormedChars8(u: seq<bv8>, lim: nat)
    requires WellFormed8(u) && |u| <= lim
    ensures var cs := Parse8(u, |u|).chars;
            AllLegal8(cs) && AllFramed8(cs) && FlatMap(Bytes, cs) == u && Parse8(u, lim) == Parsed(cs, Complete)
            && NoLongFours(cs)
  {
    var cs := Parse8(u, |u|).chars;
    Parse8Consumes(u, |u|);
    Parse8Of(cs, lim);
    LegalIsShort(cs);
  }

  lemma LegalIsShort(cs: seq<Char8>)
    requires AllLegal8(cs)
    ensures NoLongFours(cs)
  {
    forall c | c in cs && c.Four?
      ensures CodePoint8(c) > 0xffff
    {
      hide Point4, Lead4, Tail0, Tail1, Tail2;
      Legal4(c.a, c.b, c.c, c.d);
    }
  }

  /** The characters of a text recoded: they are legal, and they spell out the conversion. */
  lemma {:induction false} Recode16(cs: seq<Char16>)
    requires AllLegal16(cs)
    ensures AllLegal8(FlatMap(To8, cs)) && AllFramed8(FlatMap(To8, cs))
    ensures FlatMap(Bytes, FlatMap(To8, cs)) == FlatMap(Emit8, cs)
    ensures FlatMap(Emit16, FlatMap(To8, cs)) == FlatMap(Units, cs)
  {
    hide Legal16, Legal8, Framed8, Bytes, Units, Emit8, Emit16, Char8Of, CodePoint16;
    forall c | c in cs
      ensures FlatMap(Bytes, To8(c)) == Emit8(c) && FlatMap(Emit16, To8(c)) == Units(c)
    {
      CharThere(c);
      FlatMapOne(Bytes, Char8Of(CodePoint16(c)));
      FlatMapOne(Emit16, Char8Of(CodePoint16(c)));
    }
    FlatMapFusion(To8, Bytes, Emit8, cs);
    FlatMapFusion(To8, Emit16, Units, cs);
    forall d | d in FlatMap(To8, cs)
      ensures Legal8(d) && Framed8(d)
    {
      var c := Origin(To8, cs, d);
      CharThere(c);
      LegalIsFramed(d);
    }
  }

  lemma {:induction false} Recode8(cs: seq<Char8>)
    requires AllLegal8(cs)
    ensures AllLegal16(FlatMap(To16, cs)) && AllFramed16(FlatMap(To16, cs))
    ensures FlatMap(Units, FlatMap(To16, cs)) == FlatMap(Emit16, cs)
    ensures FlatMap(Emit8, FlatMap(To16, cs)) == FlatMap(Bytes, cs)
  {
    hide Legal8, Bytes, Units, Emit8, Emit16, Char16Of, CodePoint8;
    forall c | c in cs
      ensures FlatMap(Units, To16(c)) == Emit16(c) && FlatMap(Emit8, To16(c)) == Bytes(c)
    {
      CharBack(c);
      FlatMapOne(Units, Char16Of(CodePoint8(c)));
      FlatMapOne(Emit8, Char16Of(CodePoint8(c)));
    }
    FlatMapFusion(To16, Units, Emit16, cs);
    FlatMapFusion(To16, Emit8, Bytes, cs);
    forall d | d in FlatMap(To16, cs)
      ensures Legal16(d) && Framed16(d)
    {
      var c := Origin(To16, cs, d);
      CharBack(c);
    }
  }

  /** Where an element of an expansion comes from. */
  lemma {:induction false} Origin<S, T>(f: S -> seq<T>, s: seq<S>, t: T) returns (c: S)
    requires t in FlatMap(f, s)
    ensures c in s && t in f(c)
  {
    if t in f(s[0]) { c := s[0]; } else { c := Origin(f, s[1..], t); }
  }

  // ---------------------------------------------------------------- main results

  /** WtoU is the UTF-8 encoding of what the RFC 2781 decoder reads, although it fills from the right. */
  lemma WtoUEncodesDecoded(w: seq<bv16>, lim: nat, cbBuffer: nat, flags: bv32)
    requires WellFormed16(w) && |w| <= lim && !Has(flags, FLAG_TRUNCATE)
    ensures WtoUText(w, lim, cbBuffer, flags) == Some(FlatMap(Utf8, Decode16(w)))
  {
    hide WellFormed16, Decode16, Emit8, Utf8, FlatMap, Units, Parse16;
    var cs := Parse16(w, |w|).chars;
    WellFormedChars16(w, lim);
    DecodeChars(cs);
  }

  lemma NoHigh(u: bv16, v: bv16)
    requires !Surrogate(u)
    ensures !LegalUnits(u, v)
  {
  }

  lemma DecodeUnit(u: bv16, rest: seq<bv16>)
    requires !Surrogate(u)
    ensures Decode16([u] + rest) == [Widen(u)] + Decode16(rest)
  {
    hide LegalUnits, PairPoint, Surrogate, Widen;
    var w := [u] + rest;
    assert w[0] == u && w[1..] == rest;
    if |w| >= 2 { NoHigh(u, w[1]); }
  }

  lemma DecodePair(first: bv16, second: bv16, rest: seq<bv16>)
    requires LegalUnits(first, second)
    ensures Decode16([first, second] + rest) == [PairPoint(first, second)] + Decode16(rest)
  {
    hide LegalUnits, PairPoint;
    var w := [first, second] + rest;
    assert w[0] == first && w[1] == second && w[2..] == rest;
  }

  lemma DecodeChar(c: Char16, rest: seq<bv16>)
    requires Legal16(c)
    ensures Decode16(Units(c) + rest) == [CodePoint16(c)] + Decode16(rest)
  {
    hide PairPoint, Decode16, LegalUnits, Surrogate, Widen;
    if c.Unit? { DecodeUnit(c.u, rest); } else { DecodePair(c.first, c.second, rest); }
  }

  lemma {:induction false} DecodeChars(cs: seq<Char16>)
    requires AllLegal16(cs)
    ensures FlatMap(Utf8, Decode16(FlatMap(Units, cs))) == FlatMap(Emit8, cs)
  {
    hide Utf8, Decode16, CodePoint16, Units, Legal16;
    if |cs| > 0 {
      var c, rest := cs[0], FlatMap(Units, cs[1..]);
      DecodeChars(cs[1..]);
      assert c in cs;
      DecodeChar(c, rest);
      FlatMapHead(Utf8, CodePoint16(c), Decode16(rest));
    } else {
      DecodeNothing();
    }
  }

  lemma DecodeNothing()
    ensures FlatMap(Utf8, Decode16([])) == []
  {
  }

  lemma FlatMapHead<S, T>(f: S -> seq<T>, c: S, rest: seq<S>)
    ensures FlatMap(f, [c] + rest) == f(c) + FlatMap(f, rest)
  {
    assert ([c] + rest)[1..] == rest;
  }

  /** UTF-16 survives the way through UTF-8: UtoW(WtoU(w)) == w, and what lies between is legal UTF-8. */
  lemma UtoWInvertsWtoU(w: seq<bv16>, lim: nat, lim': nat, cbBuffer: nat, room: nat, flags: bv32)
    requires WellFormed16(w) && |w| <= lim && 3 * |w| <= lim' && !Has(flags, FLAG_TRUNCATE)
    ensures var u := WtoUText(w, lim, cbBuffer, flags);
            && u.Some? && |u.value| <= 3 * |w| && WellFormed8(u.value)
            && UtoWText(u.value, lim', room, flags) == Some(w) && UtoWGap(u.value, lim', room, flags) == 0
  {
    var cs := Parse16(w, |w|).chars;
    WellFormedChars16(w, lim);
    Recode16(cs);
    Expansion(cs);
    Parse8Of(FlatMap(To8, cs), lim');
    Parse8Of(FlatMap(To8, cs), |FlatMap(Emit8, cs)|);
    LegalIsShort(FlatMap(To8, cs));
    UtoWGapIff(FlatMap(Emit8, cs), lim', room, flags);
  }

  /** UTF-8 survives the way through UTF-16: WtoU(UtoW(u)) == u. */
  lemma WtoUInvertsUtoW(u: seq<bv8>, lim: nat, cbBuffer: nat, room: nat, flags: bv32)
    requires WellFormed8(u) && |u| <= lim && !Has(flags, FLAG_TRUNCATE)
    ensures var w := UtoWText(u, lim, room, flags);
            && w.Some? && UtoWGap(u, lim, room, flags) == 0 && |w.value| <= |u| && WellFormed16(w.value)
            && WtoUText(w.value, lim, cbBuffer, flags) == Some(u)
  {
    var cs := Parse8(u, |u|).chars;
    WellFormedChars8(u, lim);
    Recode8(cs);
    Shrinks(cs);
    UtoWGapIff(u, lim, room, flags);
    Parse16Of(FlatMap(To16, cs), lim);
    Parse16Of(FlatMap(To16, cs), |FlatMap(Emit16, cs)|);
  }

  lemma {:induction false} Shrinks(cs: seq<Char8>)
    ensures |FlatMap(Emit16, cs)| <= |FlatMap(Bytes, cs)|
  {
    hide Emit16, Framed8;
    if |cs| > 0 {
      assert cs[0] in cs;
      SlotsSuffice(cs[0]);
      Shrinks(cs[1..]);
    }
  }

  /**
   Surrogates come in runs of even length in every text the count pass of WtoU accepts, whatever their order,
   so pairing them from the right gives the pairs that were counted from the left.
   */
  lemma {:induction false} SurrogateRunsAreEven(cs: seq<Char16>, a: nat, b: nat)
    requires AllFramed16(cs) && a <= b <= |FlatMap(Units, cs)|
    requires var w := FlatMap(Units, cs);
             && (forall k :: a <= k < b ==> Surrogate(w[k]))
             && (a > 0 ==> !Surrogate(w[a - 1])) && (b < |w| ==> !Surrogate(w[b]))
    ensures (b - a) % 2 == 0
  {
    hide Surrogate, Units, Framed16, FlatMap;
    if a < b {
      if |cs| == 0 { NoUnits(); }
      var c, w, rest := cs[0], FlatMap(Units, cs), FlatMap(Units, cs[1..]);
      var n := FrontUnits(cs);
      assert Surrogate(w[a]) && (forall j :: 0 <= j < |rest| ==> rest[j] == w[j + n]);
      if a >= n { SurrogateRunsAreEven(cs[1..], a - n, b - n); } else { SurrogateRunsAreEven(cs[1..], 0, b - n); }
    }
  }

  lemma NoUnits()
    ensures FlatMap(Units, []) == []
  {
  }

  lemma FrontUnits(cs: seq<Char16>) returns (n: nat)
    requires |cs| > 0 && AllFramed16(cs)
    ensures var w, rest := FlatMap(Units, cs), FlatMap(Units, cs[1..]);
            && 1 <= n <= 2 && |w| == n + |rest| && (forall k :: n <= k < |w| ==> w[k] == rest[k - n])
            && (forall k :: 0 <= k < n ==> Surrogate(w[k]) == (n == 2))
  {
    hide Surrogate;
    n := |Units(cs[0])|;
    assert cs[0] in cs;
  }
}
