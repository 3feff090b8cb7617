/**
 What the converters of vmm/charutil.c do with texts that are not well-formed, told by the units of the text: where
 a text fails, where it is cut, and what a soft failure saves.
 */
module Malformed {
  import opened Transcode
  import opened Unicode
  import opened Csv
  import opened Validate
  import opened Wide

  // ---------------------------------------------------------------- a good front and something behind it

  lemma Parse16Unit(u: bv16, rest: seq<bv16>, room: nat)
    requires !Surrogate(u) && room > 0
    ensures var q := Parse16(rest, room - 1); Parse16([u] + rest, room) == Parsed([Unit(u)] + q.chars, q.stop)
  {
    hide Surrogate;
    assert ([u] + rest)[1..] == rest;
  }

  lemma Parse16Pair(first: bv16, second: bv16, rest: seq<bv16>, room: nat)
    requires Surrogate(first) && Surrogate(second) && room > 1
    ensures var q := Parse16(rest, room - 2);
            Parse16([first, second] + rest, room) == Parsed([Pair(first, second)] + q.chars, q.stop)
  {
    hide Surrogate;
    assert ([first, second] + rest)[2..] == rest;
  }

  lemma {:induction false} Parse16Then(cs: seq<Char16>, tail: seq<bv16>, room: nat)
    requires AllFramed16(cs) && room >= |FlatMap(Units, cs)|
    ensures var q := Parse16(tail, room - |FlatMap(Units, cs)|);
            Parse16(FlatMap(Units, cs) + tail, room) == Parsed(cs + q.chars, q.stop)
  {
    hide Surrogate, Parse16;
    var t := FlatMap(Units, cs) + tail;
    if |cs| == 0 {
      assert t == tail;
    } else {
      var rest := FlatMap(Units, cs[1..]) + tail;
      assert cs == [cs[0]] + cs[1..] && Framed16(cs[0]);
      Parse16Then(cs[1..], tail, room - |Units(cs[0])|);
      assert t == Units(cs[0]) + rest;
      match cs[0]
      case Unit(u) => Parse16Unit(u, rest, room);
      case Pair(first, second) => Parse16Pair(first, second, rest, room);
    }
  }

  lemma Parse8Char(c: Char8, rest: seq<bv8>, room: nat)
    requires Framed8(c) && room >= |Bytes(c)|
    ensures var q := Parse8(rest, room - |Bytes(c)|); Parse8(Bytes(c) + rest, room) == Parsed([c] + q.chars, q.stop)
  {
    hide Framed8, CharAt, Announced, Bytes;
    FramedLength(c, rest);
  }

  lemma {:induction false} Parse8Then(cs: seq<Char8>, tail: seq<bv8>, room: nat)
    requires AllFramed8(cs) && room >= |FlatMap(Bytes, cs)|
    ensures var q := Parse8(tail, room - |FlatMap(Bytes, cs)|);
            Parse8(FlatMap(Bytes, cs) + tail, room) == Parsed(cs + q.chars, q.stop)
  {
    hide Framed8, Bytes, Parse8;
    var t := FlatMap(Bytes, cs) + tail;
    if |cs| == 0 {
      assert t == tail;
    } else {
      var c, rest := cs[0], FlatMap(Bytes, cs[1..]) + tail;
      assert c in cs && cs == [c] + cs[1..];
      Parse8Then(cs[1..], tail, room - |Bytes(c)|);
      assert t == Bytes(c) + rest;
      Parse8Char(c, rest, room);
    }
  }

  // ---------------------------------------------------------------- UTF-16

  /** The number of surrogates a text starts with. */
  function Lead(t: seq<bv16>): (n: nat)
    ensures n <= |t| && (n < |t| ==> !(0xd800 <= t[n] <= 0xdfff))
  {
    if |t| == 0 || !(0xd800 <= t[0] <= 0xdfff) then 0 else 1 + Lead(t[1..])
  }

  /** Every maximal run of surrogates has an even length. */
  predicate EvenRuns(t: seq<bv16>)
    decreases |t|
  {
    var n := Lead(t);
    n % 2 == 0 && (n == |t| || EvenRuns(t[n + 1..]))
  }

  lemma LeadCount(t: seq<bv16>)
    requires |t| > 0
    ensures Lead(t) == 0 <==> !Surrogate(t[0])
    ensures Lead(t) == 1 <==> Surrogate(t[0]) && (|t| == 1 || !Surrogate(t[1]))
    ensures Lead(t) >= 2 ==> |t| >= 2 && Surrogate(t[0]) && Surrogate(t[1]) && Lead(t) == 2 + Lead(t[2..])
  {
    if Lead(t) > 0 && |t| > 1 { assert t[1..][0] == t[1] && t[1..][1..] == t[2..]; }
  }

  lemma ShortLead(t: seq<bv16>)
    requires |t| > 0
    ensures Lead(t) == 0 ==> EvenRuns(t) == EvenRuns(t[1..])
    ensures Lead(t) == 1 ==> !EvenRuns(t)
  {
    hide Lead, EvenRuns;
    OneRun(t);
  }

  lemma LongLead(t: seq<bv16>)
    requires |t| >= 2 && Lead(t) == 2 + Lead(t[2..])
    ensures EvenRuns(t) == EvenRuns(t[2..])
  {
    hide Lead, EvenRuns;
    var rest, n := t[2..], Lead(t[2..]);
    OneRun(t);
    OneRun(rest);
    EvenTwoOn(n);
    if n < |rest| { SliceTwoOn(t, n); }
  }

  lemma EvenTwoOn(n: nat)
    ensures (2 + n) % 2 == n % 2
  {
  }

  lemma SliceTwoOn(t: seq<bv16>, n: nat)
    requires 2 + n < |t|
    ensures t[(2 + n) + 1..] == t[2..][n + 1..]
  {
  }

  lemma OneRun(t: seq<bv16>)
    ensures EvenRuns(t) <==> Lead(t) % 2 == 0 && (Lead(t) == |t| || EvenRuns(t[Lead(t) + 1..]))
  {
    hide Lead;
  }

  lemma {:induction false} PairsOfRun(t: seq<bv16>, room: nat)
    requires room > |t|
    ensures Parse16(t, room).stop.Complete? <==> EvenRuns(t)
    ensures !Parse16(t, room).stop.Cut?
    decreases |t|
  {
    if |t| > 0 {
      LeadCount(t);
      ShortLead(t);
      if Lead(t) >= 2 { LongLead(t); }
      hide Surrogate, Lead, EvenRuns;
      if Lead(t) == 0 {
        PairsOfRun(t[1..], room - 1);
      } else if Lead(t) >= 2 {
        PairsOfRun(t[2..], room - 2);
      }
    }
  }

  /** WtoU takes a text, of whatever surrogates in whatever order, exactly when they come in runs of even length. */
  lemma WtoUAcceptsIff(t: seq<bv16>, lim: nat, cbBuffer: nat, flags: bv32)
    requires |t| < lim && !Has(flags, FLAG_TRUNCATE) && !Has(flags, FLAG_BAD_UTF8CP_SOFTFAIL)
    ensures WtoUText(t, lim, cbBuffer, flags).Some? <==> EvenRuns(t)
  {
    PairsOfRun(t, lim);
  }

  // Under truncation the front is taken as far as it fits; here it fits as a whole.

  /** The call truncates, and there is no room for `more` cells behind `used` ones and in front of the terminator. */
  predicate Full(flags: bv32, used: nat, more: nat, cap: nat) { flags & 0x0002 != 0 && used + more + 1 > cap }

  predicate Truncates(flags: bv32, used: nat, cap: nat) {
    flags & 0x0002 != 0 ==> flags & 0x0001 == 0 && used + 1 <= cap < 0xffff_0000
  }

  lemma {:induction false} AllFit<S, T>(f: S -> seq<T>, s: seq<S>, used: nat, cap: nat)
    requires used + |FlatMap(f, s)| + 1 <= cap < 0x1_0000_0000
    ensures FitWrapped(f, s, used, cap) == |s|
  {
    if |s| > 0 { AllFit(f, s[1..], used + |f(s[0])|, cap); }
  }

  /** What is accepted when the front fits: it depends on the character behind it alone. */
  lemma FrontAccepted<C, T>(f: C -> seq<T>, p: Parsed<C>, need: nat, cap: nat, flags: bv32, soft: bool)
    requires Truncates(flags, |FlatMap(f, p.chars)|, cap) && need <= 4
    ensures Accepted(f, p, need, Has(flags, FLAG_TRUNCATE), cap, soft) ==
            if p.stop.Bad? && !soft && (need == 0 || !Full(flags, |FlatMap(f, p.chars)|, need, cap)) then None
            else Some(p.chars)
  {
    if Has(flags, FLAG_TRUNCATE) { AllFit(f, p.chars, 0, cap); }
  }

  /** Where the parser stops at a surrogate without a neighbour. */
  lemma ParsedLone(cs: seq<Char16>, s: bv16, rest: seq<bv16>, lim: nat)
    requires AllFramed16(cs) && Surrogate(s) && (|rest| > 0 ==> !Surrogate(rest[0]))
    requires |FlatMap(Units, cs)| + 1 + |rest| <= lim
    ensures var good := FlatMap(Units, cs);
            Parse16(good + [s] + rest, lim) == Parsed(cs, if |good| + 1 == lim then Cut else Bad(4))
  {
    hide Framed16, Units, Surrogate;
    var good, tail := FlatMap(Units, cs), [s] + rest;
    assert good + [s] + rest == good + tail;
    assert |tail| >= 2 ==> tail[1] == rest[0];
    assert Parse16(tail, lim - |good|) == Parsed([], if |good| + 1 == lim then Cut else Bad(4));
    hide Parse16;
    Parse16Then(cs, tail, lim);
    assert cs + [] == cs;
  }

  /**
   A surrogate without a neighbour behind a good front that fits: at the caller's own limit the text ends there; so it
   does, with CHARUTIL_FLAG_BAD_UTF8CP_SOFTFAIL, if the front has 16 units, and under truncation if four bytes more
   would not fit; else the text is turned down.
   */
  lemma LoneSurrogate(cs: seq<Char16>, s: bv16, rest: seq<bv16>, lim: nat, cap: nat, flags: bv32)
    requires AllFramed16(cs) && 0xd800 <= s <= 0xdfff && (|rest| > 0 ==> !(0xd800 <= rest[0] <= 0xdfff))
    requires |FlatMap(Units, cs)| + 1 + |rest| <= lim && Truncates(flags, |FlatMap(Emit8, cs)|, cap)
    ensures var good, out := FlatMap(Units, cs), FlatMap(Emit8, cs);
            WtoUText(good + [s] + rest, lim, cap, flags) ==
            if |good| + 1 == lim || (flags & 0x0010 != 0 && |good| >= 16) || Full(flags, |out|, 4, cap) then Some(out)
            else None
  {
    hide Framed16, Units, Emit8, Full, Parse16, Accepted;
    ParsedLone(cs, s, rest, lim);
    var p := Parse16(FlatMap(Units, cs) + [s] + rest, lim);
    FrontAccepted(Emit8, p, 4, cap, flags, Has(flags, FLAG_BAD_UTF8CP_SOFTFAIL) && |FlatMap(Units, cs)| >= 0x10);
  }

  // ---------------------------------------------------------------- UTF-8

  /** The tail bytes a lead byte asks for are not all there. */
  predicate Incomplete(n: nat, rest: seq<bv8>) {
    |rest| + 1 < n || exists k :: 0 <= k < n - 1 && !(0x80 <= rest[k] <= 0xbf)
  }

  lemma IncompleteIsUnframed(b: bv8, rest: seq<bv8>)
    requires Announced(b) >= 2 && Incomplete(Announced(b), rest)
    ensures var n := Announced(b); n <= 1 + |rest| ==> !Framed8(CharAt([b] + rest, n))
  {
    var n := Announced(b);
    if |rest| + 1 >= n {
      var k :| 0 <= k < n - 1 && !(0x80 <= rest[k] <= 0xbf);
      AnnouncedRanges(rest[k]);
      assert ([b] + rest)[k + 1] == rest[k];
      assert k == 0 || k == 1 || k == 2;
    }
  }

  /** Where the parser stops at such a byte. */
  lemma StopsAt(b: bv8, rest: seq<bv8>, room: nat)
    requires room > |rest|
    ensures 0x80 <= b <= 0xbf || 0xf8 <= b ==> Parse8([b] + rest, room) == Parsed([], Bad(0))
    ensures var n := Announced(b);
            n >= 2 && (n > room || Incomplete(n, rest)) ==>
              Parse8([b] + rest, room) == Parsed([], if n > room then Cut else Bad(n))
  {
    AnnouncedRanges(b);
    var n := Announced(b);
    if n >= 2 && Incomplete(n, rest) { IncompleteIsUnframed(b, rest); }
    hide Framed8, CharAt, Announced, Incomplete;
  }

  /** How many bytes a lead byte announces, by its value. */
  function Length(b: bv8): nat {
    if b <= 0x7f then 1
    else if b < 0xc0 then 0
    else if b < 0xe0 then 2
    else if b < 0xf0 then 3
    else if b < 0xf8 then 4
    else 0
  }

  /** Behind `used` bytes there is no character that starts with `b`, or none within the limit. */
  predicate Breaks(used: nat, b: bv8, rest: seq<bv8>, lim: nat) {
    Length(b) == 0 || (Length(b) >= 2 && (used + Length(b) > lim || Incomplete(Length(b), rest)))
  }

  lemma ParsedBad(cs: seq<Char8>, b: bv8, rest: seq<bv8>, lim: nat)
    requires AllFramed8(cs) && |FlatMap(Bytes, cs)| + 1 + |rest| <= lim && Breaks(|FlatMap(Bytes, cs)|, b, rest, lim)
    ensures Length(b) <= 4
    ensures var p := Parse8(FlatMap(Bytes, cs) + [b] + rest, lim);
            && p.chars == cs
            && p.stop == if Length(b) >= 2 && |FlatMap(Bytes, cs)| + Length(b) > lim then Cut else Bad(Length(b))
    ensures Length(b) != 1
  {
    var good, tail := FlatMap(Bytes, cs), [b] + rest;
    assert good + [b] + rest == good + tail;
    AnnouncedRanges(b);
    assert Length(b) == Announced(b);
    StopsAt(b, rest, lim - |good|);
    hide Framed8, Announced, Incomplete, Parse8, Length;
    Parse8Then(cs, tail, lim);
    assert cs + [] == cs;
  }

  /**
   A byte that cannot lead behind a good front that fits fails the text. A lead byte without its tail bytes does so,
   too, unless it reaches beyond the caller's own limit or, under truncation, would not have fit with them: then the
   text ends there.
   */
  lemma BadByteInUtoU(cs: seq<Char8>, b: bv8, rest: seq<bv8>, lim: nat, cap: nat, flags: bv32)
    requires AllFramed8(cs) && |FlatMap(Bytes, cs)| + 1 + |rest| <= lim && Breaks(|FlatMap(Bytes, cs)|, b, rest, lim)
    requires Truncates(flags, |FlatMap(Bytes, cs)|, cap)
    ensures var good, n := FlatMap(Bytes, cs), Length(b);
            UtoUText(good + [b] + rest, lim, cap, flags) ==
            if n > 0 && (|good| + n > lim || Full(flags, |good|, n, cap)) then Some(good) else None
  {
    hide Framed8, Announced, Breaks, Parse8, Full, Accepted, Length, Bytes;
    ParsedBad(cs, b, rest, lim);
    var p := Parse8(FlatMap(Bytes, cs) + [b] + rest, lim);
    FrontAccepted(Bytes, p, if p.stop.Bad? then p.stop.announced else 0, cap, flags, false);
  }

  /** The same for UtoW, which reserves two units for a form of four bytes and one for any other. */
  lemma BadByteInUtoW(cs: seq<Char8>, b: bv8, rest: seq<bv8>, lim: nat, room: nat, flags: bv32)
    requires AllFramed8(cs) && |FlatMap(Bytes, cs)| + 1 + |rest| <= lim && Breaks(|FlatMap(Bytes, cs)|, b, rest, lim)
    requires Truncates(flags, |FlatMap(Slots, cs)|, room / 2)
    ensures var good, n := FlatMap(Bytes, cs), Length(b);
            UtoWText(good + [b] + rest, lim, room, flags) ==
            if n > 0 && (|good| + n > lim || Full(flags, |FlatMap(Slots, cs)|, if n == 4 then 2 else 1, room / 2)) then
              Some(FlatMap(Emit16, cs))
            else None
  {
    hide Framed8, Announced, Breaks, Parse8, Full, Accepted, Length, Bytes, Slots, Emit16;
    ParsedBad(cs, b, rest, lim);
    var p := Parse8(FlatMap(Bytes, cs) + [b] + rest, lim);
    FrontAccepted(Slots, p, if p.stop.Bad? then Reserved(p.stop.announced) else 0, room / 2, flags, false);
  }

  /** The same for UtoCSV, in terms of the size of the field so far. */
  lemma BadByteInUtoCSV(cs: seq<Char8>, b: bv8, rest: seq<bv8>, lim: nat, cap: nat, flags: bv32)
    requires AllFramed8(cs) && |FlatMap(Bytes, cs)| + 1 + |rest| <= lim && Breaks(|FlatMap(Bytes, cs)|, b, rest, lim)
    requires Truncates(flags, |Field(false, FlatMap(Bytes, cs))|, cap)
    ensures var good, n, field := FlatMap(Bytes, cs), Length(b), Field(false, FlatMap(Bytes, cs));
            CsvText(good + [b] + rest, false, lim, cap, flags) ==
            if n > 0 && (|good| + n > lim || Full(flags, |field|, n, cap)) then Some(field) else None
  {
    hide Framed8, Announced, Breaks, Parse8, Length, Bytes, Field, FitCsv, Size;
    ParsedBad(cs, b, rest, lim);
    SizeIsField(cs, false);
    if Has(flags, FLAG_TRUNCATE) {
      FitCsvIsLongestPrefix(cs, 0, false, cap, |cs|);
      assert cs[..|cs|] == cs;
    }
  }
}
