/** CharUtil_UtoCSV of vmm/charutil.c: one field of a CSV row. */
module Csv {
  import opened Transcode
  import opened Unicode
  import opened CountPass
  import opened FillPass
  import opened Narrow

  const SPACE: bv8 := 0x20
  const COMMA: bv8 := 0x2c
  const QUESTION: bv8 := 0x3f

  // ---------------------------------------------------------------- fields

  predicate Quoting(b: bv8) { b == QUOTE || b == SPACE || b == COMMA }

  function CsvByte(b: bv8): seq<bv8> {
    if b == QUOTE then [QUOTE, QUOTE] else if b < 0x20 then [QUESTION] else [b]
  }

  predicate NeedsQuotes(u: seq<bv8>) { exists b :: b in u && Quoting(b) }

  /** The field for the bytes `u` of a text; `empty` tells that the text itself was empty. */
  function Field(empty: bool, u: seq<bv8>): seq<bv8> {
    if empty || NeedsQuotes(u) then [QUOTE] + FlatMap(CsvByte, u) + [QUOTE] else FlatMap(CsvByte, u)
  }

  /** A field is quoted exactly when the text is empty or has a quote, a space or a comma in it. */
  lemma FieldIsQuotedIff(empty: bool, u: seq<bv8>)
    ensures |Field(empty, u)| > 0 && Field(empty, u)[0] == 0x22 <==> empty || 0x22 in u || 0x20 in u || 0x2c in u
  {
    if !empty && |u| > 0 && !NeedsQuotes(u) { assert !Quoting(u[0]) && CsvByte(u[0])[0] != QUOTE; }
    assert 0x22 in u ==> Quoting(0x22);
    assert 0x20 in u ==> Quoting(0x20);
    assert 0x2c in u ==> Quoting(0x2c);
  }

  /** The fields of the empty text, of a b, of a quote, and of a letter and a tab. */
  lemma FieldsOfTexts()
    ensures Field(true, []) == [0x22, 0x22]
    ensures Field(false, [0x61, 0x20, 0x62]) == [0x22, 0x61, 0x20, 0x62, 0x22]
    ensures Field(false, [0x22]) == [0x22, 0x22, 0x22, 0x22]
    ensures Field(false, [0x61, 0x09]) == [0x61, 0x3f]
  {
    FieldIsQuotedIff(false, [0x61, 0x20, 0x62]);
    FieldIsQuotedIff(false, [0x22]);
    assert Quoting([0x61, 0x20, 0x62][1]) && Quoting([0x22][0]);
    assert FlatMap(CsvByte, [0x61, 0x20, 0x62]) == [0x61] + FlatMap(CsvByte, [0x20, 0x62]) by {
      assert [0x61, 0x20, 0x62][1..] == [0x20, 0x62];
    }
    assert FlatMap(CsvByte, [0x20, 0x62]) == [0x20] + FlatMap(CsvByte, [0x62]) by {
      assert [0x20, 0x62][1..] == [0x62];
    }
    FlatMapOne(CsvByte, 0x62);
    FlatMapOne(CsvByte, 0x22);
    FlatMapOne(CsvByte, 0x09);
    assert FlatMap(CsvByte, [0x61, 0x09]) == [0x61] + FlatMap(CsvByte, [0x09]) by {
      assert [0x61, 0x09][1..] == [0x09];
    }
  }

  // ---------------------------------------------------------------- count pass

  /** What one more character adds to a field. */
  function Cost(c: Char8, quoted: bool): nat {
    match c
    case One(a) => (if a == QUOTE then 2 else 1) + (if Quoting(a) && !quoted then 2 else 0)
    case _ => |Bytes(c)|
  }

  predicate Quotes(c: Char8) { c.One? && Quoting(c.a) }

  /** How many characters a truncating count pass takes after `used` bytes. */
  function FitCsv(cs: seq<Char8>, used: nat, quoted: bool, cap: nat): (k: nat)
    ensures k <= |cs|
  {
    if |cs| == 0 || used + Cost(cs[0], quoted) + 1 > cap then 0
    else 1 + FitCsv(cs[1..], used + Cost(cs[0], quoted), quoted || Quotes(cs[0]), cap)
  }

  /** The size of a field whose characters are `cs` after a part that is quoted or not. */
  function Size(cs: seq<Char8>, quoted: bool): nat {
    if |cs| == 0 then 0 else Cost(cs[0], quoted) + Size(cs[1..], quoted || Quotes(cs[0]))
  }

  /** Greedy is best here, too, although the first quoting character costs two bytes more. */
  lemma {:induction false} FitCsvIsLongestPrefix(cs: seq<Char8>, used: nat, quoted: bool, cap: nat, k: nat)
    requires used + 1 <= cap && k <= |cs|
    ensures used + Size(cs[..k], quoted) + 1 <= cap <==> k <= FitCsv(cs, used, quoted, cap)
  {
    if k > 0 {
      assert cs[..k][1..] == cs[1..][..k - 1];
      if used + Cost(cs[0], quoted) + 1 <= cap {
        FitCsvIsLongestPrefix(cs[1..], used + Cost(cs[0], quoted), quoted || Quotes(cs[0]), cap, k - 1);
      }
    }
  }

  predicate AnyQuotes(cs: seq<Char8>) { exists c :: c in cs && Quotes(c) }

  lemma {:induction false} SizeSnoc(cs: seq<Char8>, c: Char8, quoted: bool)
    ensures Size(cs + [c], quoted) == Size(cs, quoted) + Cost(c, quoted || AnyQuotes(cs))
  {
    hide Cost, Quotes;
    if |cs| == 0 {
      assert [] + [c] == [c] && [c][1..] == [];
    } else {
      SizeSnoc(cs[1..], c, quoted || Quotes(cs[0]));
      assert (cs + [c])[1..] == cs[1..] + [c];
      assert AnyQuotes(cs) <==> Quotes(cs[0]) || AnyQuotes(cs[1..]);
    }
  }

  // What a character becomes is what its bytes become.

  lemma CharExpands(c: Char8)
    requires Framed8(c)
    ensures |FlatMap(CsvByte, Bytes(c))| == Cost(c, true)
    ensures NeedsQuotes(Bytes(c)) <==> Quotes(c)
  {
    if c.One? {
      FlatMapOne(CsvByte, c.a);
      assert c.a in Bytes(c);
    } else {
      FramedIsHigh(c);
      HighPass(Bytes(c));
    }
  }

  lemma HighBit(b: bv8)
    ensures IsTail(b) || Announced(b) > 1 ==> b > 0x7f
  {
  }

  lemma FramedIsHigh(c: Char8)
    requires Framed8(c) && !c.One?
    ensures forall b :: b in Bytes(c) ==> b > 0x7f
  {
    hide IsTail, Announced;
    forall b: bv8 { HighBit(b); }
  }

  lemma {:induction false} HighPass(s: seq<bv8>)
    requires forall b :: b in s ==> b > 0x7f
    ensures FlatMap(CsvByte, s) == s && !NeedsQuotes(s)
  {
    if |s| > 0 {
      assert s[0] in s && (forall b :: b in s[1..] ==> b in s);
      HighPass(s[1..]);
    }
  }

  /** The count pass measures the field. */
  lemma {:induction false} SizeIsField(cs: seq<Char8>, empty: bool)
    requires AllFramed8(cs) && (empty ==> cs == [])
    ensures (if empty then 2 else 0) + Size(cs, empty) == |Field(empty, FlatMap(Bytes, cs))|
    ensures NeedsQuotes(FlatMap(Bytes, cs)) <==> AnyQuotes(cs)
  {
    hide Cost, Quotes, CsvByte, Framed8, Quoting, Bytes;
    SizeIsBody(cs);
  }

  lemma {:induction false} SizeIsBody(cs: seq<Char8>)
    requires AllFramed8(cs)
    ensures NeedsQuotes(FlatMap(Bytes, cs)) <==> AnyQuotes(cs)
    ensures Size(cs, true) == |FlatMap(CsvByte, FlatMap(Bytes, cs))|
    ensures Size(cs, false) == Size(cs, true) + if AnyQuotes(cs) then 2 else 0
  {
    hide Quotes, CsvByte, Framed8, Quoting, Bytes, Cost;
    if |cs| > 0 {
      var c, rest := cs[0], FlatMap(Bytes, cs[1..]);
      assert c in cs;
      CharExpands(c);
      CostQuoted(c);
      SizeIsBody(cs[1..]);
      FlatMapConcat(CsvByte, Bytes(c), rest);
      assert NeedsQuotes(Bytes(c) + rest) <==> NeedsQuotes(Bytes(c)) || NeedsQuotes(rest) by {
        NeedsEither(Bytes(c), rest);
      }
      assert AnyQuotes(cs) <==> Quotes(c) || AnyQuotes(cs[1..]);
    }
  }

  lemma NeedsEither(a: seq<bv8>, b: seq<bv8>)
    ensures NeedsQuotes(a + b) <==> NeedsQuotes(a) || NeedsQuotes(b)
  {
    hide Quoting;
    if NeedsQuotes(a) {
      var x :| x in a && Quoting(x);
      assert x in a + b;
    }
    if NeedsQuotes(b) {
      var x :| x in b && Quoting(x);
      assert x in a + b;
    }
  }

  lemma CostQuoted(c: Char8)
    ensures Cost(c, false) == Cost(c, true) + if Quotes(c) then 2 else 0
    ensures Cost(c, true) >= 1
  {
  }

  function AcceptedCsv(t: seq<bv8>, empty: bool, lim: nat, cap: nat, flags: bv32): Option<seq<Char8>> {
    var p, used := Parse8(t, lim), if empty then 2 else 0;
    var k := if Has(flags, FLAG_TRUNCATE) then FitCsv(p.chars, used, empty, cap) else |p.chars|;
    if k < |p.chars| then Some(p.chars[..k])
    else if p.stop.Bad? && (p.stop.announced == 0 || !Has(flags, FLAG_TRUNCATE)
                            || used + Size(p.chars, empty) + p.stop.announced + 1 <= cap) then None
    else Some(p.chars)
  }

  /** The count loop has taken `done`. */
  ghost predicate CountingCsv(all: Parsed<Char8>, rest: Parsed<Char8>, empty: bool, truncate: bool, cap: nat,
                              done: seq<Char8>, size: nat)
  {
    var used, quoted := if empty then 2 else 0, empty || AnyQuotes(done);
    && all.chars == done + rest.chars && all.stop == rest.stop && size == used + Size(done, empty)
    && (truncate ==> FitCsv(all.chars, used, empty, cap) == |done| + FitCsv(rest.chars, size, quoted, cap))
  }

  lemma LookAtCsv(t: seq<bv8>, empty: bool, lim: nat, cap: nat, flags: bv32, rest: Parsed<Char8>, at: nat,
                  done: seq<Char8>, size: nat)
    returns (next: Char8, after: Parsed<Char8>)
    requires at <= |t| <= lim && rest == Parse8(t[at..], lim - at) && FlatMap(Bytes, done) == t[..at]
    requires CountingCsv(Parse8(t, lim), rest, empty, Has(flags, FLAG_TRUNCATE), cap, done, size)
    ensures at == |t| ==> AcceptedCsv(t, empty, lim, cap, flags) == Some(done)
    ensures at < |t| ==>
              var n, quoted := Announced(t[at]), empty || AnyQuotes(done);
              && (n == 0 ==> AcceptedCsv(t, empty, lim, cap, flags) == None)
              && (n != 0 && at + n > lim ==> AcceptedCsv(t, empty, lim, cap, flags) == Some(done))
              && (n != 0 && at + n <= lim ==>
                    if at + n > |t| || !Framed8(CharAt(t[at..], n)) then
                      AcceptedCsv(t, empty, lim, cap, flags) ==
                      if Has(flags, FLAG_TRUNCATE) && size + n + 1 > cap then Some(done) else None
                    else
                      && next == CharAt(t[at..], n)
                      && if Has(flags, FLAG_TRUNCATE) && size + Cost(next, quoted) + 1 > cap then
                           AcceptedCsv(t, empty, lim, cap, flags) == Some(done)
                         else
                           && after == Parse8(t[at + n..], lim - (at + n))
                           && FlatMap(Bytes, done + [next]) == t[..at + n]
                           && (empty || AnyQuotes(done + [next]) <==> quoted || Quotes(next))
                           && CountingCsv(Parse8(t, lim), after, empty, Has(flags, FLAG_TRUNCATE), cap, done + [next],
                                          size + Cost(next, quoted)))
  {
    hide Cost, Quotes, Framed8, Announced, CharAt, Bytes, FlatMap, CountingCsv, AcceptedCsv, FitCsv, Has, AnyQuotes,
         Parse8;
    next, after := One(0), rest;
    if at < |t| {
      Step8(t, lim, at);
      var n := Announced(t[at]);
      if |rest.chars| > 0 {
        next := rest.chars[0];
        after := Parse8(t[at + n..], lim - (at + n));
        AdvanceCsv(t, empty, lim, cap, flags, rest, after, done, size, next);
        FlatMapConcat(Bytes, done, [next]);
        FlatMapOne(Bytes, next);
      } else {
        ExhaustedCsv(t, empty, lim, cap, flags, rest, done, size);
      }
    } else {
      NothingToParse(lim - at);
      assert t[at..] == [];
      ExhaustedCsv(t, empty, lim, cap, flags, rest, done, size);
    }
  }

  lemma AdvanceCsv(t: seq<bv8>, empty: bool, lim: nat, cap: nat, flags: bv32, rest: Parsed<Char8>, after: Parsed<Char8>,
                   done: seq<Char8>, size: nat, next: Char8)
    requires CountingCsv(Parse8(t, lim), rest, empty, Has(flags, FLAG_TRUNCATE), cap, done, size)
    requires rest == Parsed([next] + after.chars, after.stop)
    ensures var quoted := empty || AnyQuotes(done);
            && (empty || AnyQuotes(done + [next]) <==> quoted || Quotes(next))
            && if Has(flags, FLAG_TRUNCATE) && size + Cost(next, quoted) + 1 > cap then
                 AcceptedCsv(t, empty, lim, cap, flags) == Some(done)
               else
                 CountingCsv(Parse8(t, lim), after, empty, Has(flags, FLAG_TRUNCATE), cap, done + [next],
                             size + Cost(next, quoted))
  {
    hide Cost, Quotes, Parse8, AnyQuotes;
    assert rest.chars[1..] == after.chars;
    SizeSnoc(done, next, empty);
    AnyEither(done, next);
    var all := Parse8(t, lim);
    assert all.chars == (done + [next]) + after.chars && all.chars[..|done|] == done;
  }

  lemma ExhaustedCsv(t: seq<bv8>, empty: bool, lim: nat, cap: nat, flags: bv32, rest: Parsed<Char8>, done: seq<Char8>,
                     size: nat)
    requires CountingCsv(Parse8(t, lim), rest, empty, Has(flags, FLAG_TRUNCATE), cap, done, size) && rest.chars == []
    ensures AcceptedCsv(t, empty, lim, cap, flags) ==
            if rest.stop.Bad? && (rest.stop.announced == 0 || !Has(flags, FLAG_TRUNCATE)
                                  || size + rest.stop.announced + 1 <= cap)
            then None else Some(done)
  {
    hide Parse8, AnyQuotes, Size;
    assert Parse8(t, lim).chars == done;
  }

  lemma AnyEither(cs: seq<Char8>, c: Char8)
    ensures AnyQuotes(cs + [c]) <==> AnyQuotes(cs) || Quotes(c)
  {
    hide Quotes;
    if AnyQuotes(cs) {
      var x :| x in cs && Quotes(x);
      assert x in cs + [c];
    }
    assert c in cs + [c];
  }

  /** What the branches of the count pass add for a character of `n` bytes that starts with `c`. */
  function Weight(c: bv8, n: nat, fCSV: bool): nat {
    if n > 1 then n
    else if Quoting(c) then (if c == QUOTE then 2 else 1) + (if fCSV then 0 else 2)
    else 1
  }

  lemma MultiByte(c: bv8, n: nat, fCSV: bool)
    ensures n > 1 ==> Weight(c, n, fCSV) == n
  {
  }

  lemma CostOf(r: seq<bv8>, quoted: bool)
    requires |r| > 0
    ensures var n := Announced(r[0]);
            1 <= n <= |r| ==>
              var c := CharAt(r, n);
              && (n == 1 ==> Framed8(c))
              && Quotes(c) == (n == 1 && Quoting(r[0])) && Cost(c, quoted) == Weight(r[0], n, quoted)
  {
  }

  method CountCsv(usz: array<bv8>, lim: dword, cbBuffer: dword, flags: bv32)
    returns (ok: bool, cbu: dword, cbv: nat, fCSV: bool, ghost done: seq<Char8>)
    requires lim <= CONVERT_MAXSIZE && usz.Length > 0 && Terminated(usz[..], 0, lim)
    ensures var t := usz[..Strnlen(usz[..], 0, lim)]; var cs := AcceptedCsv(t, usz[0] == 0, lim, cbBuffer, flags);
            && ok == cs.Some?
            && (ok ==> cbu <= |t| && FlatMap(Bytes, cs.value) == t[..cbu]
                       && cbv == |Field(usz[0] == 0, t[..cbu])| && fCSV == (usz[0] == 0 || NeedsQuotes(t[..cbu])))
    ensures ok ==> AcceptedCsv(usz[..Strnlen(usz[..], 0, lim)], usz[0] == 0, lim, cbBuffer, flags) == Some(done)
  {
    hide CountingCsv, AcceptedCsv, Parse8, FlatMap, Announced, Framed8, AnyQuotes, NeedsQuotes, Cost, Field, Weight,
         Quotes, Quoting, CharAt, Has;
    var truncate := Has(flags, FLAG_TRUNCATE);
    ghost var m := Strnlen(usz[..], 0, lim);
    ghost var t := usz[..m];
    assert m == lim <= usz.Length || (m < usz.Length && usz[m] == 0);
    ghost var all, empty := Parse8(t, lim), usz[0] == 0;
    cbu, cbv, fCSV, done := 0, 0, false, [];
    if usz[0] == 0 {
      fCSV := true;
      cbv := cbv + 2;
    }
    ghost var rest, size, quoted := all, cbv as nat, fCSV;
    StartCsv(all, empty, truncate, cbBuffer);
    assert t[0..] == t && t[..0] == [];
    while cbu < lim && usz[cbu] != 0
      invariant cbu <= |t| && cbv == size && fCSV == quoted
      invariant quoted == (empty || AnyQuotes(done)) && AllFramed8(done) && (empty ==> done == [])
      invariant FlatMap(Bytes, done) == t[..cbu] && rest == Parse8(t[cbu..], lim - cbu)
      invariant CountingCsv(all, rest, empty, truncate, cbBuffer, done, size)
      decreases lim - cbu
    {
      ghost var next, after := LookAtCsv(t, empty, lim, cbBuffer, flags, rest, cbu, done, size);
      var c := usz[cbu];
      assert t[cbu] == c && t[cbu..][0] == c;
      var n := Announced(c);
      if n == 0 { return false, 0, 0, false, []; }
      if cbu + n > lim { break; }
      CostOf(t[cbu..], fCSV);
      MultiByte(c, n, fCSV);
      var m := Weight(c, n, fCSV);
      assert cbu + n <= |t| && Framed8(CharAt(t[cbu..], n)) ==> m == Cost(next, quoted);
      if truncate && cbv + m >= cbBuffer { break; }
      var tailOk := TailOk(usz, cbu, n, lim);
      if !tailOk { return false, 0, 0, false, []; }
      fCSV := fCSV || (n == 1 && Quoting(c));
      cbv := cbv + m;
      cbu := cbu + n;
      assert fCSV == (quoted || Quotes(next));
      done, rest, size, quoted := done + [next], after, size + m, fCSV;
    }
    ghost var _, _ := LookAtCsv(t, empty, lim, cbBuffer, flags, rest, cbu, done, size);
    MeasuredCsv(all, rest, empty, truncate, cbBuffer, done, size);
    ok := true;
  }

  lemma StartCsv(all: Parsed<Char8>, empty: bool, truncate: bool, cap: nat)
    ensures CountingCsv(all, all, empty, truncate, cap, [], if empty then 2 else 0) && FlatMap(Bytes, []) == []
            && !AnyQuotes([])
  {
    assert [] + all.chars == all.chars;
  }

  lemma MeasuredCsv(all: Parsed<Char8>, rest: Parsed<Char8>, empty: bool, truncate: bool, cap: nat, done: seq<Char8>,
                    size: nat)
    requires CountingCsv(all, rest, empty, truncate, cap, done, size) && AllFramed8(done) && (empty ==> done == [])
    ensures size == |Field(empty, FlatMap(Bytes, done))| && (NeedsQuotes(FlatMap(Bytes, done)) <==> AnyQuotes(done))
  {
    SizeIsField(done, empty);
  }

  // ---------------------------------------------------------------- fill pass

  lemma CsvByteLength(b: bv8)
    ensures 1 <= |CsvByte(b)| <= 2
  {
  }

  /** The field's bytes at `o`, then NUL, and nothing else changed. */
  twostate predicate Placed(vsz: array<bv8>, o: nat, field: seq<bv8>)
    reads vsz
  {
    PlacedIn(old(vsz[..]), vsz[..], o, field)
  }

  predicate PlacedIn(was: seq<bv8>, now: seq<bv8>, o: nat, field: seq<bv8>) {
    && o + |field| < |now| == |was|
    && now[o..o + |field| + 1] == field + [0]
    && now[..o] == was[..o] && now[o + |field| + 1..] == was[o + |field| + 1..]
  }

  /** `k` bytes of `t` are still to be converted; `q` is 1 when the field is quoted. */
  ghost predicate OwedCsv(src: seq<bv8>, t: seq<bv8>, k: nat, iu: dword, iv: dword, buf: seq<bv8>, first: seq<bv8>,
                          o: nat, q: nat, start: seq<bv8>)
  {
    && k <= |t| && q <= 1 && |buf| == |first| && o + q + |start| == |buf| && buf[..o + q] == first[..o + q]
    && var p, end := |FlatMap(CsvByte, t[..k])|, |FlatMap(CsvByte, t)|;
       && p <= end && end + q < 0x8000_0000 && iv == Minus(p + q, 1) && (k == 0 <==> p == 0)
       && Owed(Self, CsvByte, src, t, k, iu, Minus(p, 1), buf[o + q..], start, end)
  }

  lemma CsvStarts(src: seq<bv8>, t: seq<bv8>, cbu: dword, buf: seq<bv8>, first: seq<bv8>, o: nat, q: nat, cbv: dword)
    requires |t| + 1 == cbu <= CONVERT_MAXSIZE + 1 && t <= src && q <= 1
    requires |FlatMap(CsvByte, t)| + 2 * q + 1 == cbv && cbv - q <= 0x8000_0000 && o + cbv <= |buf| == |first|
    requires buf[..o + q] == first[..o + q]
    ensures OwedCsv(src, t, |t|, Minus(cbu, 2), Minus(cbv - q, 2), buf, first, o, q, buf[o + q..])
  {
    hide Owed, CsvByte;
    forall b { CsvByteLength(b); }
    var end := |FlatMap(CsvByte, t)|;
    SelfIsText(t);
    BytesGrow(CsvByte, t);
    assert t[..|t|] == t && (|t| == 0 ==> end == 0);
    OwedStarts(Self, CsvByte, src, t, cbu, end + 1, buf[o + q..]);
  }

  lemma CsvStep(src: seq<bv8>, t: seq<bv8>, k: nat, iu: dword, iv: dword, buf: seq<bv8>, first: seq<bv8>,
                o: nat, q: nat, start: seq<bv8>) returns (at: nat)
    requires k > 0 && OwedCsv(src, t, k, iu, iv, buf, first, o, q, start)
    ensures iu < |src| && iv + 1 >= |CsvByte(src[iu])|
    ensures at == o + iv + 1 - |CsvByte(src[iu])| && o + iv < |buf|
    ensures var e := CsvByte(src[iu]); var buf' := Patched(buf, at, e);
            && OwedCsv(src, t, k - 1, Minus(iu, 1), Minus(iv, |e|), buf', first, o, q, start)
            && (src == buf && o == 0 ==>
                  OwedCsv(buf', t, k - 1, Minus(iu, 1), Minus(iv, |e|), buf', first, o, q, start))
  {
    hide Owed, CsvByte, FlatMap, Patched;
    forall b { CsvByteLength(b); }
    var d, p, end := o + q, |FlatMap(CsvByte, t[..k])|, |FlatMap(CsvByte, t)|;
    var c, a, p' := NextChar(Self, CsvByte, src, t, k, iu, Minus(p, 1), buf[d..], start, end);
    assert Self(c)[0] == src[a..iu + 1][0] == c;
    FlatMapAt(CsvByte, t, k - 1);
    NothingLeft(t, k - 1);
    SelfIsText(t[..k - 1]);
    at := d + p';
    var buf' := Patched(buf, at, CsvByte(c));
    PatchShift(buf, d, p', CsvByte(c));
    assert buf'[..d] == first[..d];
    if src == buf && o == 0 {
      PatchedFront(buf, at, CsvByte(c), a);
      SameFront(Self, CsvByte, src, buf', t, k - 1, Minus(iu, 1), Minus(p', 1), buf'[d..], start, end, a);
    }
  }

  lemma PatchedFront(buf: seq<bv8>, at: nat, e: seq<bv8>, a: nat)
    requires a <= at && at + |e| <= |buf|
    ensures |Patched(buf, at, e)| == |buf| && Patched(buf, at, e)[..a] == buf[..a]
  {
  }

  lemma NothingLeft(t: seq<bv8>, k: nat)
    requires k <= |t|
    ensures |FlatMap(CsvByte, t[..k])| >= k && (k == 0 ==> FlatMap(CsvByte, t[..k]) == [])
  {
    forall b { CsvByteLength(b); }
    hide CsvByte;
    BytesGrow(CsvByte, t[..k]);
  }

  lemma CsvEnds(src: seq<bv8>, t: seq<bv8>, k: nat, iu: dword, iv: dword, buf: seq<bv8>, first: seq<bv8>,
                o: nat, q: nat, start: seq<bv8>)
    requires OwedCsv(src, t, k, iu, iv, buf, first, o, q, start)
    ensures k > 0 ==> q <= iv < 0x7fff_ffff && o + iv < |buf| && iv < |FlatMap(CsvByte, t)| + q
    ensures k == 0 ==> iv == Minus(q, 1)
    ensures var body := FlatMap(CsvByte, t);
            k == 0 ==>
              && |body| < |start| && o + q + |start| == |buf|
              && buf[o + q..] == body + start[|body|..] && buf[..o + q] == first[..o + q]
  {
    hide CsvByte, FlatMap, Owed;
    var d, p, body := o + q, |FlatMap(CsvByte, t[..k])|, FlatMap(CsvByte, t);
    NothingLeft(t, k);
    if k == 0 {
      var view := buf[d..];
      OwedEnds(Self, CsvByte, src, t, k, iu, Minus(p, 1), view, start, |body|, 0);
      Unchanged(view, body, start);
    } else {
      var _, _, _ := NextChar(Self, CsvByte, src, t, k, iu, Minus(p, 1), buf[d..], start, |body|);
    }
  }

  lemma Unchanged(view: seq<bv8>, body: seq<bv8>, start: seq<bv8>)
    requires |body| < |view| == |start| && view[|body|] == start[|body|]
    requires view[|body| := 0][..|body| + 1] == body + [0] && view[|body| := 0][|body| + 1..] == start[|body| + 1..]
    ensures view == body + start[|body|..]
  {
    var n := |body|;
    assert view[n := 0][..n + 1][..n] == view[..n] && (body + [0])[..n] == body;
    assert view[n := 0][n + 1..] == view[n + 1..];
    assert view == view[..n] + [view[n]] + view[n + 1..];
  }

  lemma CsvOpens(src: seq<bv8>, t: seq<bv8>, cbu: dword, begun: seq<bv8>, first: seq<bv8>, o: nat, q: nat, cbv: dword,
                 iv: dword)
    requires |t| + 1 == cbu <= CONVERT_MAXSIZE + 1 && t <= src && q <= 1
    requires |FlatMap(CsvByte, t)| + 2 * q + 1 == cbv && cbv - q <= 0x8000_0000 && o + cbv <= |first|
    requires begun == if q == 1 then first[o + cbv - 2 := QUOTE] else first
    requires iv == if q == 1 then Minus(Minus(cbv, 2), 1) else Minus(cbv, 2)
    ensures OwedCsv(src, t, |t|, Minus(cbu, 2), iv, begun, first, o, q, begun[o + q..])
  {
    hide OwedCsv, CsvByte, FlatMap;
    assert begun[..o + q] == first[..o + q];
    CsvStarts(src, t, cbu, begun, first, o, q, cbv);
  }

  /** The two quotes and the NUL around a body that is in place. */
  lemma Enclosed(first: seq<bv8>, begun: seq<bv8>, buf: seq<bv8>, body: seq<bv8>, o: nat, q: nat)
    returns (field: seq<bv8>, out: seq<bv8>)
    requires q <= 1 && o + |body| + 2 * q < |buf| == |first|
    requires begun == if q == 1 then first[o + 1 + |body| := QUOTE] else first
    requires buf[o + q..] == body + begun[o + q..][|body|..] && buf[..o + q] == first[..o + q]
    ensures field == (if q == 1 then [QUOTE] + body + [QUOTE] else body)
    ensures out == (if q == 1 then buf[o := QUOTE] else buf)[o + |field| := 0]
    ensures PlacedIn(first, out, o, field)
  {
    field := if q == 1 then [QUOTE] + body + [QUOTE] else body;
    out := (if q == 1 then buf[o := QUOTE] else buf)[o + |field| := 0];
    var d, n := o + q, |body|;
    assert begun[d..][n..] == begun[d + n..];
    forall i | 0 <= i < |out|
      ensures out[i] == if o <= i < o + |field| then field[i - o] else if i == o + |field| then 0 else first[i]
    {
      if i < d { assert buf[..d][i] == first[..d][i]; } else { CellBehind(buf, d, body, begun, i); }
    }
    CellsPlaced(first, out, o, field);
  }

  lemma CellsPlaced(first: seq<bv8>, out: seq<bv8>, o: nat, field: seq<bv8>)
    requires o + |field| < |out| == |first|
    requires forall i :: 0 <= i < |out| ==>
               out[i] == if o <= i < o + |field| then field[i - o] else if i == o + |field| then 0 else first[i]
    ensures PlacedIn(first, out, o, field)
  {
  }

  lemma CellBehind(buf: seq<bv8>, d: nat, body: seq<bv8>, begun: seq<bv8>, i: nat)
    requires d + |body| <= |buf| == |begun| && d <= i < |buf| && buf[d..] == body + begun[d + |body|..]
    ensures buf[i] == if i < d + |body| then body[i - d] else begun[i]
  {
    assert buf[i] == buf[d..][i - d] == (body + begun[d + |body|..])[i - d];
  }

  /**
   The loop that fills a field from the right, opening quote included. It is governed by the write cursor, so it
   never starts when a quoted field puts that cursor at 0x7fffffff or higher. `filled` is the buffer without the
   opening quote.
   */
  method FillBody(sz: array<bv8>, vsz: array<bv8>, o: nat, iu0: dword, iv0: dword, fCSV: bool,
                  ghost t: seq<bv8>, ghost first: seq<bv8>, ghost start: seq<bv8>)
    returns (ghost filled: seq<bv8>)
    requires (sz == vsz ==> o == 0) && |FlatMap(CsvByte, t)| + o < 0xffff_ffff
    requires (fCSV && iv0 >= 0x7fff_ffff)
             || OwedCsv(sz[..], t, |t|, iu0, iv0, vsz[..], first, o, if fCSV then 1 else 0, start)
    modifies vsz
    ensures fCSV && iv0 >= 0x7fff_ffff ==> vsz[..] == old(vsz[..])
    ensures !fCSV || iv0 < 0x7fff_ffff ==>
              var body, d := FlatMap(CsvByte, t), o + if fCSV then 1 else 0;
              && |body| < |start| && d + |start| == |filled| && filled[d..] == body + start[|body|..]
              && filled[..d] == first[..d]
              && |filled| == vsz.Length && (fCSV ==> o < |filled|)
              && vsz[..] == if fCSV then filled[o := QUOTE] else filled
  {
    hide OwedCsv, FlatMap, Patched, CsvByte;
    var iu, iv := iu0, iv0;
    ghost var k: nat, q := |t|, if fCSV then 1 else 0;
    filled := vsz[..];
    while iv < 0x7fffffff
      invariant (fCSV && iv0 >= 0x7fff_ffff && iv == iv0 && vsz[..] == old(vsz[..]))
                || ((!fCSV || iv0 < 0x7fff_ffff) && OwedCsv(sz[..], t, k, iu, iv, vsz[..], first, o, q, start))
      invariant sz != vsz ==> sz[..] == old(sz[..])
      decreases k
    {
      CsvEnds(sz[..], t, k, iu, iv, vsz[..], first, o, q, start);
      if iv == 0 && fCSV {
        filled := vsz[..];
        vsz[o] := QUOTE;
        return;
      }
      ghost var at := CsvStep(sz[..], t, k, iu, iv, vsz[..], first, o, q, start);
      var c := sz[iu];
      CsvByteLength(c);
      iu := Minus(iu, 1);
      var below := PutBack(vsz, o + iv, CsvByte(c));
      iv := Minus(iv, |CsvByte(c)|);
      k := k - 1;
    }
    if !(fCSV && iv0 >= 0x7fff_ffff) {
      CsvEnds(sz[..], t, k, iu, iv, vsz[..], first, o, q, start);
      filled := vsz[..];
    }
  }

  method OpenField(vsz: array<bv8>, o: nat, iv: dword, fCSV: bool) returns (iv': dword)
    requires fCSV ==> o + iv < vsz.Length
    modifies vsz
    ensures iv' == if fCSV then Minus(iv, 1) else iv
    ensures vsz[..] == if fCSV then old(vsz[..])[o + iv := QUOTE] else old(vsz[..])
  {
    iv' := iv;
    if fCSV {
      vsz[o + iv] := QUOTE;
      iv' := Minus(iv, 1);
    }
  }

  /** All that is left of a field beyond the reach of the loop: its closing quote and the NUL. */
  predicate UnfilledIn(was: seq<bv8>, now: seq<bv8>, o: nat, n: nat) {
    0 < n && o + n < |now| == |was| && now == was[o + n - 1 := QUOTE][o + n := 0]
  }

  twostate predicate Unfilled(vsz: array<bv8>, o: nat, n: nat)
    reads vsz
  {
    UnfilledIn(old(vsz[..]), vsz[..], o, n)
  }

  /** The longest field the loop fills. */
  const REACH: nat := 0x8000_0000

  lemma LastCell(t: seq<bv8>, cbv: dword, fCSV: bool)
    requires cbv == |FlatMap(CsvByte, t)| + (if fCSV then 2 else 0) + 1
    ensures fCSV ==> Minus(cbv, 2) == cbv - 2 && cbv - 2 > |t|
  {
    NothingLeft(t, |t|);
    assert t[..|t|] == t;
  }

  lemma BeginCsv(src: seq<bv8>, t: seq<bv8>, o: nat, cbu: dword, cbv: dword, fCSV: bool,
                 first: seq<bv8>, begun: seq<bv8>, iv: dword)
    requires |t| + 1 == cbu <= CONVERT_MAXSIZE + 1 && t <= src
    requires cbv == |FlatMap(CsvByte, t)| + (if fCSV then 2 else 0) + 1 && (!fCSV ==> cbv <= 0x8000_0000)
    requires o + cbv <= |first| && begun == if fCSV then first[o + cbv - 2 := QUOTE] else first
    requires iv == if fCSV then Minus(Minus(cbv, 2), 1) else Minus(cbv, 2)
    ensures fCSV && iv >= 0x7fff_ffff <==> cbv - 1 > REACH
    ensures var q := if fCSV then 1 else 0;
            cbv - 1 <= REACH ==> OwedCsv(src, t, |t|, Minus(cbu, 2), iv, begun, first, o, q, begun[o + q..])
  {
    hide OwedCsv, FlatMap, CsvByte;
    NothingLeft(t, |t|);
    assert t[..|t|] == t;
    if cbv - 1 <= REACH { CsvOpens(src, t, cbu, begun, first, o, if fCSV then 1 else 0, cbv, iv); }
  }

  lemma EndCsv(first: seq<bv8>, begun: seq<bv8>, filled: seq<bv8>, last: seq<bv8>, body: seq<bv8>, o: nat, q: nat,
               n: nat)
    requires q <= 1 && n == |body| + 2 * q && o + n < |first| && (q == 0 ==> n <= REACH)
    requires begun == if q == 1 then first[o + n - 1 := QUOTE] else first
    requires n > REACH ==> last == begun
    requires n <= REACH ==>
               && |filled| == |first| && filled[o + q..] == body + begun[o + q..][|body|..]
               && filled[..o + q] == first[..o + q]
               && last == if q == 1 then filled[o := QUOTE] else filled
    ensures if n <= REACH then PlacedIn(first, last[o + n := 0], o, if q == 1 then [QUOTE] + body + [QUOTE] else body)
            else UnfilledIn(first, last[o + n := 0], o, n)
  {
    if n <= REACH {
      var field, out := Enclosed(first, begun, filled, body, o, q);
    }
  }

  /** The rest of the fill once the closing quote is in place; `first` is the buffer without that quote. */
  method FillRest(sz: array<bv8>, vsz: array<bv8>, o: nat, cbu: dword, cbv: dword, iv: dword, fCSV: bool,
                  ghost t: seq<bv8>, ghost first: seq<bv8>)
    requires (sz == vsz ==> o == 0) && |FlatMap(CsvByte, t)| + o < 0xffff_ffff && (!fCSV ==> cbv - 1 <= REACH)
    requires cbv == |FlatMap(CsvByte, t)| + (if fCSV then 2 else 0) + 1 && o + cbv <= |first|
    requires vsz[..] == if fCSV then first[o + cbv - 2 := QUOTE] else first
    requires fCSV && iv >= 0x7fff_ffff <==> cbv - 1 > REACH
    requires var q := if fCSV then 1 else 0;
             cbv - 1 <= REACH ==> OwedCsv(sz[..], t, |t|, Minus(cbu, 2), iv, vsz[..], first, o, q, vsz[o + q..])
    modifies vsz
    ensures var body := FlatMap(CsvByte, t);
            if cbv - 1 <= REACH then PlacedIn(first, vsz[..], o, if fCSV then [QUOTE] + body + [QUOTE] else body)
            else UnfilledIn(first, vsz[..], o, cbv - 1)
  {
    hide OwedCsv, FlatMap, CsvByte, PlacedIn, UnfilledIn, Minus;
    ghost var begun, q := vsz[..], if fCSV then 1 else 0;
    ghost var filled := FillBody(sz, vsz, o, Minus(cbu, 2), iv, fCSV, t, first, begun[o + q..]);
    ghost var last := vsz[..];
    vsz[o + cbv - 1] := 0;
    EndCsv(first, begun, filled, last, FlatMap(CsvByte, t), o, q, cbv - 1);
  }

  /** The backward fill, at offset `o` of `vsz`. It may run in place when `o` is 0. */
  method FillCsv(sz: array<bv8>, vsz: array<bv8>, o: nat, cbu: dword, cbv: dword, fCSV: bool)
    requires 1 <= cbu <= CONVERT_MAXSIZE + 1 && cbu - 1 <= sz.Length && (sz == vsz ==> o == 0)
    requires cbv == |FlatMap(CsvByte, sz[..cbu - 1])| + (if fCSV then 2 else 0) + 1 && (!fCSV ==> cbv <= 0x8000_0000)
    requires o + cbv <= vsz.Length && o + cbv <= 0xffff_ffff
    modifies vsz
    ensures var body := FlatMap(CsvByte, old(sz[..cbu - 1]));
            if cbv - 1 <= REACH then Placed(vsz, o, if fCSV then [QUOTE] + body + [QUOTE] else body)
            else Unfilled(vsz, o, cbv - 1)
  {
    hide OwedCsv, FlatMap, CsvByte, PlacedIn, UnfilledIn, Minus;
    ghost var t, first := sz[..cbu - 1], vsz[..];
    LastCell(t, cbv, fCSV);
    var iv := OpenField(vsz, o, Minus(cbv, 2), fCSV);
    assert t <= sz[..];
    BeginCsv(sz[..], t, o, cbu, cbv, fCSV, first, vsz[..], iv);
    FillRest(sz, vsz, o, cbu, cbv, iv, fCSV, t, first);
  }

  // ---------------------------------------------------------------- UtoCSV

  /** The field UtoCSV produces, NUL excluded; `empty` tells that the caller's text starts with NUL. */
  function CsvText(t: seq<bv8>, empty: bool, lim: nat, cap: nat, flags: bv32): Option<seq<bv8>> {
    if Has(flags, FLAG_TRUNCATE) && (cap == 0 || Has(flags, FLAG_ALLOC)) then None
    else match AcceptedCsv(t, empty, lim, cap, flags)
         case None => None
         case Some(cs) => Some(Field(empty, FlatMap(Bytes, cs)))
  }

  predicate StartsEmpty(p: array?<bv8>)
    requires p != null ==> p.Length > 0
    reads p
  {
    p == null || p[0] == 0
  }

  lemma FieldLength(empty: bool, u: seq<bv8>)
    ensures |Field(empty, u)| == |FlatMap(CsvByte, u)| + if empty || NeedsQuotes(u) then 2 else 0
    ensures var body := FlatMap(CsvByte, u);
            Field(empty, u) == if empty || NeedsQuotes(u) then [QUOTE] + body + [QUOTE] else body
  {
  }

  // How long a field can get.

  function QuoteCount(u: seq<bv8>): (n: nat)
    ensures n <= |u|
  {
    if |u| == 0 then 0 else (if u[0] == QUOTE then 1 else 0) + QuoteCount(u[1..])
  }

  lemma {:induction false} QuotesGrow(u: seq<bv8>)
    ensures |FlatMap(CsvByte, u)| == |u| + QuoteCount(u) && (QuoteCount(u) > 0 ==> NeedsQuotes(u))
  {
    hide CsvByte;
    if |u| > 0 {
      QuotesGrow(u[1..]);
      QuoteGrows(u[0]);
      assert u[0] in u && forall b :: b in u[1..] ==> b in u;
    }
  }

  lemma QuoteGrows(b: bv8)
    ensures |CsvByte(b)| == if b == QUOTE then 2 else 1
    ensures b == QUOTE ==> Quoting(b)
  {
  }

  /**
   The text taken decides: its field is beyond the reach of the fill loop exactly when it has the maximal 2^30
   bytes and all of them but at most one are quotes. UtoCSV then reports success and delivers a buffer with nothing
   but the closing quote and the NUL in it.
   */
  lemma UnfilledIff(t: seq<bv8>, empty: bool, lim: nat, cap: nat, flags: bv32)
    requires |t| <= CONVERT_MAXSIZE && CsvText(t, empty, lim, cap, flags).Some? && (empty ==> t == [])
    ensures var taken := FlatMap(Bytes, AcceptedCsv(t, empty, lim, cap, flags).value);
            |CsvText(t, empty, lim, cap, flags).value| > REACH <==>
            |taken| == 0x4000_0000 && QuoteCount(taken) >= 0x3fff_ffff
  {
    hide AcceptedCsv, Field, NeedsQuotes;
    var taken := FlatMap(Bytes, AcceptedCsv(t, empty, lim, cap, flags).value);
    TakenIsShort(t, empty, lim, cap, flags);
    FieldLength(empty, taken);
    QuotesGrow(taken);
  }

  lemma FieldBound(empty: bool, u: seq<bv8>)
    requires |u| <= CONVERT_MAXSIZE
    ensures |Field(empty, u)| <= 0x8000_0002
  {
    hide Field, NeedsQuotes;
    FieldLength(empty, u);
    QuotesGrow(u);
  }

  lemma TakenIsShort(t: seq<bv8>, empty: bool, lim: nat, cap: nat, flags: bv32)
    requires AcceptedCsv(t, empty, lim, cap, flags).Some?
    ensures |FlatMap(Bytes, AcceptedCsv(t, empty, lim, cap, flags).value)| <= |t|
  {
    hide Framed8, Size, FitCsv, Parse8;
    Parse8Consumes(t, lim);
    var all := Parse8(t, lim).chars;
    var k := if Has(flags, FLAG_TRUNCATE) then FitCsv(all, if empty then 2 else 0, empty, cap) else |all|;
    assert all[..|all|] == all;
    assert AcceptedCsv(t, empty, lim, cap, flags).value == all[..k];
    FlatMapSplit(Bytes, all, k);
  }

  /** 2^30 quotes are such a text. */
  lemma OnlyQuotesGoUnfilled()
    ensures var t := seq(0x4000_0000, _ => QUOTE); var field := CsvText(t, false, 0x4000_0000, 0, 0);
            field.Some? && |field.value| == 0x8000_0002 > REACH
  {
    var t, cs: seq<Char8> := seq(0x4000_0000, _ => QUOTE), seq(0x4000_0000, _ => One(QUOTE));
    CharsOfQuotes(t, cs);
    QuoteIsFramed();
    Parse8Of(cs, 0x4000_0000);
    CountQuotes(t);
    QuotesGrow(t);
    hide Parse8, Framed8;
    assert AcceptedCsv(t, false, 0x4000_0000, 0, 0) == Some(cs);
    FieldLength(false, t);
  }

  lemma QuoteIsFramed()
    ensures Framed8(One(QUOTE))
  {
  }

  lemma {:induction false} CharsOfQuotes(t: seq<bv8>, cs: seq<Char8>)
    requires |t| == |cs| && (forall b :: b in t ==> b == QUOTE) && forall c :: c in cs ==> c == One(QUOTE)
    ensures FlatMap(Bytes, cs) == t
  {
    if |t| > 0 {
      assert t[0] in t && cs[0] in cs && (forall b :: b in t[1..] ==> b in t) && forall c :: c in cs[1..] ==> c in cs;
      CharsOfQuotes(t[1..], cs[1..]);
      assert t[0] == QUOTE && cs[0] == One(QUOTE);
      assert t == [QUOTE] + t[1..];
    }
  }

  lemma {:induction false} CountQuotes(t: seq<bv8>)
    requires forall b :: b in t ==> b == QUOTE
    ensures QuoteCount(t) == |t|
  {
    if |t| > 0 {
      assert t[0] in t && forall b :: b in t[1..] ==> b in t;
      CountQuotes(t[1..]);
    }
  }

  /** The observable answer of UtoCSV: that of the other converters, but for fields the loop does not reach. */
  twostate predicate RepliedCsv(dst: array?<bv8>, cbBuffer: nat, wantStr: bool, flags: bv32, heapOk: bool,
                                field: Option<seq<bv8>>, ok: bool, new vsz: array?<bv8>, cb: nat)
    reads dst, vsz
  {
    if field.None? || |field.value| <= REACH then
      Replied(dst, cbBuffer, wantStr, flags, heapOk, field, ok, vsz, cb)
    else
      var n := |field.value|;
      var place := Place(flags, wantStr, dst != null, cbBuffer, heapOk, n + 1);
      if place.InBuffer? then
        ok && cb == n + 1 && vsz == (if wantStr then dst else null) && dst != null && Unfilled(dst, 0, n)
      else if place.InHeap? then
        && ok && cb == n + 1 && vsz != null && fresh(vsz) && vsz.Length == n + 1 && vsz[n - 1] == QUOTE && vsz[n] == 0
        && Untouched(dst)
      else
        Answered(place, dst, cbBuffer, wantStr, flags, n + 1, ok, vsz, cb)
  }

  method FillFront(sz: array<bv8>, vsz: array<bv8>, cbu: dword, cbv: dword, fCSV: bool, ghost empty: bool)
    requires 1 <= cbu <= CONVERT_MAXSIZE + 1 && cbu - 1 <= sz.Length && fCSV == (empty || NeedsQuotes(sz[..cbu - 1]))
    requires cbv == |Field(empty, sz[..cbu - 1])| + 1 && cbv <= vsz.Length
    modifies vsz
    ensures if cbv - 1 <= REACH then Holds(vsz, Field(empty, old(sz[..cbu - 1])), 0) else Unfilled(vsz, 0, cbv - 1)
  {
    hide FlatMap, NeedsQuotes, Field;
    ghost var field := Field(empty, sz[..cbu - 1]);
    FieldLength(empty, sz[..cbu - 1]);
    QuotesGrow(sz[..cbu - 1]);
    FillCsv(sz, vsz, 0, cbu, cbv, fCSV);
    assert cbv - 1 <= REACH ==>
             && vsz[..|field| + 1] == vsz[..][0..0 + |field| + 1]
             && vsz[|field| + 1..] == vsz[..][0 + |field| + 1..];
  }

  method DeliverCsv(s: array<bv8>, dst: array?<bv8>, cbBuffer: dword, wantStr: bool, flags: bv32, heapOk: bool,
                    cbu: dword, cbv: dword, fCSV: bool)
    returns (ok: bool, vsz: array?<bv8>, cb: nat)
    requires (dst != null ==> cbBuffer <= dst.Length) && s.Length > 0
    requires 1 <= cbu <= CONVERT_MAXSIZE + 1 && cbu - 1 <= s.Length && fCSV == (s[0] == 0 || NeedsQuotes(s[..cbu - 1]))
    requires cbv == |Field(s[0] == 0, s[..cbu - 1])| + 1
    modifies Cells(dst)
    ensures RepliedCsv(dst, cbBuffer, wantStr, flags, heapOk,
                       Some(Field(old(s[0]) == 0, old(s[..cbu - 1]))), ok, vsz, cb)
  {
    hide Place, Field, NeedsQuotes, Has, FlatMap;
    var buf;
    buf, ok, vsz, cb := Prepare(dst, cbBuffer, wantStr, flags, heapOk, cbv);
    if buf != null {
      FillFront(s, buf, cbu, cbv, fCSV, s[0] == 0);
    }
  }

  /** `s` may be `dst`. */
  method CsvOf(s: array<bv8>, lim: dword, dst: array?<bv8>, cbBuffer: dword, wantStr: bool, flags: bv32, heapOk: bool)
    returns (ok: bool, vsz: array?<bv8>, cbv: nat)
    requires lim <= CONVERT_MAXSIZE && s.Length > 0 && Terminated(s[..], 0, lim)
             && (dst != null ==> cbBuffer <= dst.Length)
    modifies Cells(dst)
    ensures var field := CsvText(old(s[..Strnlen(s[..], 0, lim)]), old(s[0]) == 0, lim, cbBuffer, flags);
            RepliedCsv(dst, cbBuffer, wantStr, flags, heapOk, field, ok, vsz, cbv)
  {
    hide AcceptedCsv, FlatMap, Strnlen, Terminated, Place, Field, NeedsQuotes, UnfilledIn, Has;
    ghost var t := s[..Strnlen(s[..], 0, lim)];
    if Has(flags, FLAG_TRUNCATE) && (cbBuffer == 0 || Has(flags, FLAG_ALLOC)) {
      vsz, cbv := FailTail(dst, cbBuffer, wantStr, flags, 0);
      return false, vsz, cbv;
    }
    var counted, cbu, cb, fCSV, cs := CountCsv(s, lim, cbBuffer, flags);
    if !counted {
      vsz, cbv := FailTail(dst, cbBuffer, wantStr, flags, 0);
      return false, vsz, cbv;
    }
    assert s[..cbu] == t[..cbu];
    FieldBound(s[0] == 0, t[..cbu]);
    ok, vsz, cbv := DeliverCsv(s, dst, cbBuffer, wantStr, flags, heapOk, cbu + 1, cb + 1, fCSV);
  }

  /** `usz` may be `dst`. */
  method UtoCSV(usz: array?<bv8>, cch: dword, dst: array?<bv8>, cbBuffer: dword, wantStr: bool, flags: bv32,
                heapOk: bool)
    returns (ok: bool, vsz: array?<bv8>, cbv: nat)
    requires Readable(usz, 0, cch) && (dst != null ==> cbBuffer <= dst.Length)
    modifies Cells(dst)
    ensures var field := CsvText(old(Text(usz, 0, cch)), old(StartsEmpty(usz)), Limit(cch), cbBuffer, flags);
            RepliedCsv(dst, cbBuffer, wantStr, flags, heapOk, field, ok, vsz, cbv)
  {
    hide CsvText, Strnlen, Terminated, Place;
    var s := Source(usz, 0, cch);
    ok, vsz, cbv := CsvOf(s, Limit(cch), dst, cbBuffer, wantStr, flags, heapOk);
  }
}
