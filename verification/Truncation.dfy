/**
 CHARUTIL_FLAG_TRUNCATE: what the converters promise is the longest whole-character prefix that fits into the
 buffer with its terminator. The JSON converters keep the promise only under conditions, given here exactly.
 The one converter that pays for something once, UtoCSV, is in module CsvRow.
 */
module Truncation {
  import opened Transcode
  import opened Unicode
  import opened Wide
  import opened Narrow
  import opened Validate
  import J = Json
  import C = Csv

  /** `out` is what some prefix of `cs` becomes, and the prefixes that fit are exactly those no longer than it. */
  ghost predicate Longest<C, T>(f: C -> seq<T>, cs: seq<C>, cap: nat, out: seq<T>) {
    exists m: nat :: m <= |cs| && out == FlatMap(f, cs[..m]) && FitsUpTo(f, cs, cap, m)
  }

  ghost predicate FitsUpTo<C, T>(f: C -> seq<T>, cs: seq<C>, cap: nat, m: nat) {
    forall k: nat :: k <= |cs| ==> (|FlatMap(f, cs[..k])| + 1 <= cap <==> k <= m)
  }

  /** A truncating call that is not turned away at once. */
  predicate Truncating(flags: bv32, cap: nat) {
    Has(flags, FLAG_TRUNCATE) && !Has(flags, FLAG_ALLOC) && 0 < cap <= 0xffff_ffff
  }

  lemma GreedyIsLongest<C, T>(f: C -> seq<T>, cs: seq<C>, cap: nat)
    requires cap > 0
    ensures FitsUpTo(f, cs, cap, Fit(f, cs, 0, cap)) && Longest(f, cs, cap, FlatMap(f, cs[..Fit(f, cs, 0, cap)]))
  {
    forall k: nat | k <= |cs| ensures |FlatMap(f, cs[..k])| + 1 <= cap <==> k <= Fit(f, cs, 0, cap) {
      FitIsLongestPrefix(f, cs, 0, cap, k);
    }
  }

  lemma AcceptedIsFit<C, T>(f: C -> seq<T>, p: Parsed<C>, need: nat, cap: nat, soft: bool)
    requires !p.stop.Bad?
    ensures Accepted(f, p, need, true, cap, soft) == Some(p.chars[..FitWrapped(f, p.chars, 0, cap)])
  {
    assert p.chars[..|p.chars|] == p.chars;
  }

  /** No sum wraps in a text that expands to less than 4 GB. */
  lemma SmallIsLongest<C, T>(f: C -> seq<T>, p: Parsed<C>, need: nat, cap: nat, soft: bool)
    requires 0 < cap <= 0xffff_ffff && !p.stop.Bad?
    requires (forall c :: c in p.chars ==> |f(c)| <= 6) && |FlatMap(f, p.chars)| < 0x1_0000_0000
    ensures var cs := Accepted(f, p, need, true, cap, soft); cs.Some? && Longest(f, p.chars, cap, FlatMap(f, cs.value))
  {
    hide Longest;
    AcceptedIsFit(f, p, need, cap, soft);
    FitWrappedWhenSmall(f, p.chars, cap);
    GreedyIsLongest(f, p.chars, cap);
  }

  lemma WtoUTruncates(t: seq<bv16>, lim: nat, cap: nat, flags: bv32)
    requires Truncating(flags, cap) && |t| <= CONVERT_MAXSIZE && !Parse16(t, lim).stop.Bad?
    ensures var out := WtoUText(t, lim, cap, flags); out.Some? && Longest(Emit8, Parse16(t, lim).chars, cap, out.value)
  {
    hide Longest, Parse16, Framed16, Emit8;
    Parse16Consumes(t, lim);
    var p := Parse16(t, lim);
    Expansion(p.chars);
    forall c | c in p.chars ensures |Emit8(c)| <= 6 { Emit8Width(c); }
    SmallIsLongest(Emit8, p, 4, cap, Has(flags, FLAG_BAD_UTF8CP_SOFTFAIL) && |FlatMap(Units, p.chars)| >= 0x10);
  }

  lemma UtoUTruncates(t: seq<bv8>, lim: nat, cap: nat, flags: bv32)
    requires Truncating(flags, cap) && |t| <= CONVERT_MAXSIZE && !Parse8(t, lim).stop.Bad?
    ensures var out := UtoUText(t, lim, cap, flags); out.Some? && Longest(Bytes, Parse8(t, lim).chars, cap, out.value)
  {
    hide Longest, Parse8, Framed8;
    Parse8Consumes(t, lim);
    SmallIsLongest(Bytes, Parse8(t, lim), 0, cap, false);
  }

  /** How names get into a directory listing: always, in a buffer of any size, as the longest prefix that fits. */
  lemma NamesAreStored(t: seq<bv8>, lim: nat, cap: nat, heapOk: bool)
    requires 0 < cap <= 0xffff_ffff && |t| <= CONVERT_MAXSIZE && !Parse8(t, lim).stop.Bad?
    ensures var out := UtoUText(t, lim, cap, 0x000e);
            && out.Some? && |out.value| + 1 <= cap && Longest(Bytes, Parse8(t, lim).chars, cap, out.value)
            && Place(0x000e, false, true, cap, heapOk, |out.value| + 1) == InBuffer
  {
    hide Longest, Parse8, Framed8;
    assert Truncating(0x000e, cap);
    UtoUTruncates(t, lim, cap, 0x000e);
    var out := UtoUText(t, lim, cap, 0x000e).value;
    LongestFits(Bytes, Parse8(t, lim).chars, cap, out);
  }

  lemma LongestFits<C, T>(f: C -> seq<T>, cs: seq<C>, cap: nat, out: seq<T>)
    requires Longest(f, cs, cap, out)
    ensures |out| + 1 <= cap
  {
  }

  /** UtoW measures its buffer in bytes but only uses the even part of it. */
  lemma UtoWTruncates(t: seq<bv8>, lim: nat, cbBuffer: nat, flags: bv32)
    requires Truncating(flags, cbBuffer) && cbBuffer > 1 && |t| <= CONVERT_MAXSIZE
    requires !Parse8(t, lim).stop.Bad? && NoLongFours(Parse8(t, lim).chars)
    ensures var out, cs := UtoWText(t, lim, cbBuffer - cbBuffer % 2, flags), Parse8(t, lim).chars;
            && out.Some?
            && exists m: nat :: m <= |cs| && out.value == FlatMap(Emit16, cs[..m]) && UnitsFitUpTo(cs, cbBuffer, m)
  {
    hide Longest, Parse8, FitsUpTo, Framed8, NoLongFours;
    var room, p := cbBuffer - cbBuffer % 2, Parse8(t, lim);
    Parse8Consumes(t, lim);
    SlotsShrink(p.chars);
    AcceptedIsFit(Slots, p, 0, room / 2, false);
    FitWrappedWhenSmall(Slots, p.chars, room / 2);
    GreedyIsLongest(Slots, p.chars, room / 2);
    SlotsAreUnits(p.chars, cbBuffer, room, Fit(Slots, p.chars, 0, room / 2));
  }

  lemma {:induction false} SlotsShrink(cs: seq<Char8>)
    ensures |FlatMap(Slots, cs)| <= |FlatMap(Bytes, cs)|
  {
    if |cs| > 0 { SlotsShrink(cs[1..]); }
  }

  /** The prefixes that fit into `cbBuffer` bytes as UTF-16 with a terminator. */
  ghost predicate UnitsFitUpTo(cs: seq<Char8>, cbBuffer: nat, m: nat) {
    forall k: nat :: k <= |cs| ==> (2 * |FlatMap(Emit16, cs[..k])| + 2 <= cbBuffer <==> k <= m)
  }

  lemma SlotsAreUnits(cs: seq<Char8>, cbBuffer: nat, room: nat, m: nat)
    requires room == cbBuffer - cbBuffer % 2 && NoLongFours(cs) && m <= |cs| && FitsUpTo(Slots, cs, room / 2, m)
    ensures UnitsFitUpTo(cs, cbBuffer, m)
  {
    forall k: nat | k <= |cs| ensures 2 * |FlatMap(Emit16, cs[..k])| + 2 <= cbBuffer <==> k <= m {
      assert forall c :: c in cs[..k] ==> c in cs;
      GapIsLongFours(cs[..k]);
      assert |FlatMap(Slots, cs[..k])| + 1 <= room / 2 <==> k <= m;
    }
  }

  // ---------------------------------------------------------------- WtoJ

  lemma EmitJsonLength(c: Char16)
    requires Framed16(c)
    ensures |J.EmitJson(c)| <= 6
  {
    hide J.EmitJson;
    if c.Unit? { J.FitsUnit(c.u); } else { J.FitsPair(c.first, c.second); }
  }

  /** The DWORD sum for the first character that does not fit wraps; this takes a buffer of 4 GB less five bytes. */
  predicate SumWraps<C, T>(f: C -> seq<T>, cs: seq<C>, cap: nat) {
    var m := Fit(f, cs, 0, cap);
    m < |cs| && |FlatMap(f, cs[..m])| + |f(cs[m])| >= 0x1_0000_0000
  }

  lemma SumWrapsInHugeBuffers<C, T>(f: C -> seq<T>, cs: seq<C>, cap: nat)
    requires cap > 0 && forall c :: c in cs ==> |f(c)| <= 6
    ensures SumWraps(f, cs, cap) ==> cap >= 0xffff_fffb
  {
    if SumWraps(f, cs, cap) {
      var m := Fit(f, cs, 0, cap);
      FitIsLongestPrefix(f, cs, 0, cap, m);
      assert cs[m] in cs;
    }
  }

  /**
   Under truncation WtoJ produces something that fits, then the longest prefix, exactly when that sum does not wrap.
   */
  lemma WtoJTruncatesIff(t: seq<bv16>, lim: nat, cap: nat, flags: bv32)
    requires Truncating(flags, cap) && !Parse16(t, lim).stop.Bad?
    ensures var out, cs := J.WtoJText(t, lim, cap, flags), Parse16(t, lim).chars;
            && out.Some?
            && (|out.value| + 1 <= cap <==> !SumWraps(J.EmitJson, cs, cap))
            && (cap < 0xffff_fffb ==> |out.value| + 1 <= cap)
            && (|out.value| + 1 <= cap ==> Longest(J.EmitJson, cs, cap, out.value))
  {
    hide Longest, Parse16, Framed16, J.EmitJson;
    Parse16Consumes(t, lim);
    var p := Parse16(t, lim);
    forall c | c in p.chars ensures |J.EmitJson(c)| <= 6 { EmitJsonLength(c); }
    AcceptedIsFit(J.EmitJson, p, 4, cap, false);
    FitWrappedIff(J.EmitJson, p.chars, 0, cap);
    GreedyIsLongest(J.EmitJson, p.chars, cap);
    FitIsLongestPrefix(J.EmitJson, p.chars, 0, cap, FitWrapped(J.EmitJson, p.chars, 0, cap));
    SumWrapsInHugeBuffers(J.EmitJson, p.chars, cap);
  }

  // ---------------------------------------------------------------- byte by byte

  /** A count pass that checks every byte is the greedy one. */
  lemma {:induction false} CheckingAllIsGreedy(f: bv8 -> seq<bv8>, t: seq<bv8>, used: nat, cap: nat)
    ensures Taken(f, AnyByte, t, used, cap) == FitWrapped(f, t, used, cap)
  {
    hide Over;
    if |t| > 0 { CheckingAllIsGreedy(f, t[1..], used + |f(t[0])|, cap); }
  }

  lemma AtoUTruncates(t: seq<bv8>, cap: nat, flags: bv32)
    requires Truncating(flags, cap) && |t| <= CONVERT_MAXSIZE
    ensures var out := ExpandedText(Latin, AnyByte, t, cap, flags); out.Some? && Longest(Latin, t, cap, out.value)
  {
    hide Longest, Latin;
    forall c { Lengths(c); }
    ExpansionBound(Latin, 2, t);
    CheckingAllIsGreedy(Latin, t, 0, cap);
    FitWrappedWhenSmall(Latin, t, cap);
    GreedyIsLongest(Latin, t, cap);
  }

  /** As for WtoJ. */
  lemma AtoJTruncatesIff(t: seq<bv8>, cap: nat, flags: bv32)
    requires Truncating(flags, cap)
    ensures var out := ExpandedText(LatinJson, AnyByte, t, cap, flags);
            && out.Some?
            && (|out.value| + 1 <= cap <==> !SumWraps(LatinJson, t, cap))
            && (cap < 0xffff_fffb ==> |out.value| + 1 <= cap)
            && (|out.value| + 1 <= cap ==> Longest(LatinJson, t, cap, out.value))
  {
    hide Longest, LatinJson;
    forall c { Lengths(c); }
    CheckingAllIsGreedy(LatinJson, t, 0, cap);
    FitWrappedIff(LatinJson, t, 0, cap);
    GreedyIsLongest(LatinJson, t, cap);
    FitIsLongestPrefix(LatinJson, t, 0, cap, FitWrapped(LatinJson, t, 0, cap));
    SumWrapsInHugeBuffers(LatinJson, t, cap);
  }

  /** UtoJ checks only the bytes it escapes, so it may run past the last byte that fits, but never stops before it. */
  lemma {:induction false} JsonNeverStopsEarly(t: seq<bv8>, used: nat, cap: nat)
    requires used + 1 <= cap <= 0xffff_ffff
    ensures var n, m := Taken(Json, Special, t, used, cap), Fit(Json, t, used, cap);
            && m <= n
            && (n == m <==>
                  m == |t| || (Special(t[m]) && used + |FlatMap(Json, t[..m])| + |Json(t[m])| < 0x1_0000_0000))
  {
    hide Json, GrowJson, Special, Over;
    if |t| > 0 {
      var x, m := used + |Json(t[0])|, Fit(Json, t, used, cap);
      Lengths(t[0]);
      OverOrNot(used, |Json(t[0])|, cap);
      if x + 1 <= cap {
        JsonNeverStopsEarly(t[1..], x, cap);
        assert t[..m][1..] == t[1..][..m - 1] && t[..m][0] == t[0];
        assert FlatMap(Json, t[..m]) == Json(t[0]) + FlatMap(Json, t[1..][..m - 1]);
      } else {
        assert t[..0] == [];
        if !Special(t[0]) { assert Taken(Json, Special, t, used, cap) > 0; }
      }
    }
  }

  /**
   Under truncation UtoJ produces something that fits, namely the longest prefix, exactly when the text fits as
   a whole or the first byte that does not fit is one to be escaped (and its sum does not wrap); else it takes too
   much, and the call fails for lack of room, or goes by a size that has wrapped at 4 GB.
   */
  lemma UtoJTruncatesIff(t: seq<bv8>, cap: nat, flags: bv32)
    requires Truncating(flags, cap)
    ensures var out, m := ExpandedText(Json, Special, t, cap, flags), Fit(Json, t, 0, cap);
            && out.Some?
            && (|out.value| + 1 <= cap <==> m == |t| || (Special(t[m]) && !SumWraps(Json, t, cap)))
            && (cap < 0xffff_fffb ==> (|out.value| + 1 <= cap <==> m == |t| || Special(t[m])))
            && (|out.value| + 1 <= cap ==> Longest(Json, t, cap, out.value))
  {
    hide Longest, Json, Special;
    var n, m := Taken(Json, Special, t, 0, cap), Fit(Json, t, 0, cap);
    JsonNeverStopsEarly(t, 0, cap);
    GreedyIsLongest(Json, t, cap);
    assert |FlatMap(Json, t[..n])| + 1 <= cap <==> n <= m;
    forall c { Lengths(c); }
    SumWrapsInHugeBuffers(Json, t, cap);
  }

  /** Two ordinary bytes and a buffer of two bytes: AtoU returns the first one, UtoJ fails. */
  lemma UtoJGivesUp(flags: bv32)
    requires Truncating(flags, 2)
    ensures var t := [0x61, 0x62];
            && ExpandedText(Latin, AnyByte, t, 2, flags) == Some([0x61])
            && |ExpandedText(Json, Special, t, 2, flags).value| + 1 > 2
  {
    var t: seq<bv8> := [0x61, 0x62];
    CheckingAllIsGreedy(Latin, t, 0, 2);
    assert t[1..] == [0x62] && t[..1] == [0x61];
    assert Latin(0x61) == [0x61] && Latin(0x62) == [0x62];
    assert FitWrapped(Latin, t[1..], 1, 2) == 0;
    assert FlatMap(Latin, t[..1]) == [0x61];
    assert Fit(Json, t[1..], 1, 2) == 0 && !Special(t[1]);
    UtoJTruncatesIff(t, 2, flags);
  }

  // ---------------------------------------------------------------- calls that are turned away

  /** Truncation without a buffer, or together with allocation, fails in every converter, whatever the text. */
  lemma TurnedAway(t: seq<bv8>, w: seq<bv16>, empty: bool, lim: nat, cap: nat, flags: bv32,
                   f: bv8 -> seq<bv8>, checked: bv8 -> bool)
    requires flags & 0x0002 != 0 && (cap == 0 || flags & 0x0001 != 0)
    ensures UtoUText(t, lim, cap, flags) == None && UtoWText(t, lim, cap, flags) == None
    ensures WtoUText(w, lim, cap, flags) == None && J.WtoJText(w, lim, cap, flags) == None
    ensures ExpandedText(f, checked, t, cap, flags) == None && C.CsvText(t, empty, lim, cap, flags) == None
  {
  }
}
