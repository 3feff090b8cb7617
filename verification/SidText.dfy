/**
 ConvertSidToStringSidA and ConvertStringSidToSidA of vmm/oscompatibility.c: the text form of a security
 identifier, with the authority always in decimal.
 */
module SidText {
  import opened Transcode

  const MAX_SUBS: nat := 15
  const AUTHORITY_SIZE: int := 0x1_0000_0000_0000
  const DWORD_SIZE: int := 0x1_0000_0000
  const QWORD_SIZE: int := 0x1_0000_0000_0000_0000

  /** The fields of the binary form; the count byte is the number of subauthorities. */
  datatype Sid = Sid(revision: nat, authority: nat, subs: seq<nat>)

  predicate Valid(sid: Sid) {
    && sid.revision == 1 && sid.authority < AUTHORITY_SIZE && 1 <= |sid.subs| <= MAX_SUBS
    && forall v :: v in sid.subs ==> v < DWORD_SIZE
  }

  // ---------------------------------------------------------------- numbers

  predicate IsDigit(c: char) { '0' <= c <= '9' }

  function DigitOf(v: nat): (c: char)
    requires v < 10
    ensures IsDigit(c)
  {
    "0123456789"[v]
  }

  function ValueOf(c: char): nat
    requires IsDigit(c)
  {
    c as int - '0' as int
  }

  /** %llu and %u */
  function Decimal(n: nat): (s: string)
    ensures |s| >= 1 && forall k :: 0 <= k < |s| ==> IsDigit(s[k])
  {
    if n < 10 then [DigitOf(n)] else Decimal(n / 10) + [DigitOf(n % 10)]
  }

  function Run(s: string): (r: string)
    ensures forall k :: 0 <= k < |r| ==> IsDigit(r[k])
  {
    if |s| == 0 || !IsDigit(s[0]) then [] else [s[0]] + Run(s[1..])
  }

  function Number(s: string): nat
    requires forall k :: 0 <= k < |s| ==> IsDigit(s[k])
  {
    if |s| == 0 then 0 else 10 * Number(s[..|s| - 1]) + ValueOf(s[|s| - 1])
  }

  predicate IsSpace(c: char) { c == ' ' || '\t' <= c <= '\r' }

  function SkipSpace(s: string): string {
    if |s| > 0 && IsSpace(s[0]) then SkipSpace(s[1..]) else s
  }

  function Saturated(n: nat): nat { if n >= QWORD_SIZE then QWORD_SIZE - 1 else n }

  /** strtoull(s, NULL, 10), and strtoul where a long has 64 bits. */
  function StrToNumber(s: string): nat {
    var t := SkipSpace(s);
    if |t| > 0 && t[0] == '-' then
      var n := Number(Run(t[1..]));
      if n == 0 || n >= QWORD_SIZE then Saturated(n) else QWORD_SIZE - n
    else Saturated(Number(Run(if |t| > 0 && t[0] == '+' then t[1..] else t)))
  }

  // ---------------------------------------------------------------- printing

  const PREFIX: string := "S-1-"

  function SubsText(subs: seq<nat>): string {
    if |subs| == 0 then "" else SubsText(subs[..|subs| - 1]) + "-" + Decimal(subs[|subs| - 1])
  }

  function Text(authority: nat, subs: seq<nat>): string { PREFIX + Decimal(authority) + SubsText(subs) }

  lemma {:induction false} DecimalLength(n: nat, digits: nat, bound: nat)
    requires bound == Power10(digits) && n < bound && digits >= 1
    ensures |Decimal(n)| <= digits
  {
    if n >= 10 {
      assert bound == 10 * Power10(digits - 1) && Power10(0) == 1;
      DecimalLength(n / 10, digits - 1, Power10(digits - 1));
    }
  }

  function Power10(n: nat): nat { if n == 0 then 1 else 10 * Power10(n - 1) }

  /** A printed number takes at most 20 and at most 10 places. */
  lemma Widths(a: nat, v: nat)
    requires a < AUTHORITY_SIZE && v < DWORD_SIZE
    ensures |Decimal(a)| <= 15 && |Decimal(v)| <= 10
  {
    assert Power10(5) == 100000;
    assert Power10(10) == 10000000000;
    assert Power10(15) == 1000000000000000;
    DecimalLength(a, 15, Power10(15));
    DecimalLength(v, 10, Power10(10));
  }

  /** The identifier of the local system. */
  lemma LocalSystem()
    ensures Text(5, [18]) == "S-1-5-18"
  {
    assert [18][..0] == [] && SubsText([]) == "" && Decimal(5) == "5" && Decimal(1) == "1";
    assert Decimal(18) == Decimal(1) + "8";
    assert SubsText([18]) == SubsText([]) + "-" + Decimal(18);
  }

  /** Text and NUL fit into the 64 + 12c bytes that LocalAlloc yields if `heapOk`. */
  method Print(sid: Sid, heapOk: bool) returns (szSid: Option<string>)
    requires 0 <= |sid.subs| < 256 && sid.authority < AUTHORITY_SIZE && forall v :: v in sid.subs ==> v < DWORD_SIZE
    ensures szSid.Some? <==> Valid(sid) && heapOk
    ensures szSid.Some? ==> szSid.value == Text(sid.authority, sid.subs) && |szSid.value| + 1 <= 64 + 12 * |sid.subs|
  {
    hide Decimal;
    if sid.revision != 1 || |sid.subs| == 0 || |sid.subs| > MAX_SUBS || !heapOk { return None; }
    Widths(sid.authority, 0);
    var sz, i := PREFIX + Decimal(sid.authority), 0;
    while i < |sid.subs|
      invariant 0 <= i <= |sid.subs| && sz == Text(sid.authority, sid.subs[..i]) && |sz| <= 19 + 11 * i
    {
      assert sid.subs[i] in sid.subs;
      Widths(0, sid.subs[i]);
      assert sid.subs[..i + 1][..i] == sid.subs[..i];
      sz := sz + "-" + Decimal(sid.subs[i]);
      i := i + 1;
    }
    assert sid.subs[..i] == sid.subs;
    szSid := Some(sz);
  }

  // ---------------------------------------------------------------- parsing

  /** The number behind every dash from position `i` on. */
  function Subs(t: string, i: nat): seq<nat>
    decreases |t| - i
  {
    if i >= |t| then []
    else if t[i] == '-' then [StrToNumber(t[i + 1..]) % DWORD_SIZE] + Subs(t, i + 1)
    else Subs(t, i + 1)
  }

  /** No two dashes in a row, none at either end. */
  predicate Separated(t: string) {
    && |t| > 0 && t[0] != '-' && t[|t| - 1] != '-'
    && forall i :: 0 < i < |t| ==> !(t[i] == '-' && t[i - 1] == '-')
  }

  /** What the parser accepts of the text behind "S-1-". */
  function Parsed(t: string): Option<Sid> {
    if Separated(t) && 1 <= |Subs(t, 0)| <= MAX_SUBS then Some(Sid(1, StrToNumber(t) % AUTHORITY_SIZE, Subs(t, 0)))
    else None
  }

  lemma {:induction false} SubsBound(t: string, i: nat)
    ensures |Subs(t, i)| <= if i < |t| then |t| - i else 0
    ensures forall v :: v in Subs(t, i) ==> v < DWORD_SIZE
    decreases |t| - i
  {
    if i < |t| { SubsBound(t, i + 1); }
  }

  /** The outcome of the parser; it may also read or write outside its memory. */
  datatype Outcome = Rejected | Read(sid: Sid) | StrayRead | StrayWrite

  predicate LeadingDash(t: string) { |t| > 0 && t[0] == '-' }

  /** The dashes are counted in a byte, which here holds the count of a valid identifier but is not the true one. */
  predicate Overruns(t: string) {
    Separated(t) && |Subs(t, 0)| >= 256 && 1 <= |Subs(t, 0)| % 256 <= MAX_SUBS
  }

  /**
   The parser reads the character before a dash with a DWORD index, which wraps for a dash in front; and it stores
   as many subauthorities as there are dashes into memory for the count in the byte.
   */
  method Parse(szSid: string, heapOk: bool) returns (r: Outcome)
    ensures |szSid| < 4 || szSid[..4] != PREFIX ==> r == Rejected
    ensures |szSid| >= 4 && szSid[..4] == PREFIX ==>
              var t := szSid[4..];
              && (r.StrayRead? <==> LeadingDash(t))
              && (r.StrayWrite? <==> Overruns(t) && heapOk)
              && (r.Read? <==> Parsed(t).Some? && heapOk)
              && (r.Read? ==> r.sid == Parsed(t).value)
  {
    hide StrToNumber;
    if |szSid| < 4 || szSid[..4] != PREFIX { return Rejected; }
    var t := szSid[4..];
    ghost var d := |Subs(t, 0)|;
    var c, i := 0, 0;
    while i < |t|
      invariant 0 <= i <= |t| && c < 256 && (i > 0 ==> !LeadingDash(t))
      invariant d >= |Subs(t, i)| && c == (d - |Subs(t, i)|) % 256
      invariant forall j :: 0 < j < i ==> !(t[j] == '-' && t[j - 1] == '-')
    {
      if t[i] == '-' {
        if i == 0 { return StrayRead; }
        if t[i - 1] == '-' { assert !Separated(t); return Rejected; }
        CountOne(d, |Subs(t, i)|);
        c := (c + 1) % 256;
      }
      i := i + 1;
    }
    assert c == d % 256;
    if c == 0 || c > MAX_SUBS || t[|t| - 1] == '-' { return Rejected; }
    assert Separated(t);
    if !heapOk { return Rejected; }
    var subs: seq<nat>, at := [], 0;
    ghost var all := Subs(t, 0);
    while true
      invariant 0 <= at < |t| && t[at] != '-' && subs + Subs(t, at) == all && |subs| <= c
      decreases |t| - at
    {
      assert Subs(t, at) == Subs(t, at + 1);
      at := at + 1;
      while at < |t| && t[at] != '-'
        invariant 0 < at <= |t| && subs + Subs(t, at) == all
      {
        at := at + 1;
      }
      if at == |t| { break; }
      assert |all| > |subs|;
      at := at + 1;
      if |subs| == c { return StrayWrite; }
      subs := subs + [StrToNumber(t[at..]) % DWORD_SIZE];
    }
    assert subs == all;
    r := Read(Sid(1, StrToNumber(t) % AUTHORITY_SIZE, subs));
  }

  /** One more dash for the byte. */
  lemma CountOne(d: nat, left: nat)
    requires d >= left >= 1
    ensures ((d - left) % 256 + 1) % 256 == (d - (left - 1)) % 256
  {
  }

  // ---------------------------------------------------------------- round trips

  lemma {:induction false} DecimalReadsBack(n: nat)
    ensures Number(Decimal(n)) == n
  {
    hide DigitOf, ValueOf, Number;
    DigitReadsBack(n % 10);
    if n >= 10 {
      DecimalReadsBack(n / 10);
      NumberGrows(Decimal(n / 10), DigitOf(n % 10));
    } else {
      assert [] + [DigitOf(n)] == [DigitOf(n)];
      NumberGrows([], DigitOf(n));
    }
  }

  lemma DigitReadsBack(v: nat)
    requires v < 10
    ensures ValueOf(DigitOf(v)) == v
  {
  }

  lemma NumberGrows(s: string, c: char)
    requires (forall k :: 0 <= k < |s| ==> IsDigit(s[k])) && IsDigit(c)
    ensures Number(s + [c]) == 10 * Number(s) + ValueOf(c) && Number([]) == 0
  {
    assert (s + [c])[..|s|] == s;
  }

  lemma {:induction false} RunOf(d: string, rest: string)
    requires (forall k :: 0 <= k < |d| ==> IsDigit(d[k])) && (|rest| > 0 ==> !IsDigit(rest[0]))
    ensures Run(d + rest) == d
  {
    if |d| > 0 {
      assert (d + rest)[1..] == d[1..] + rest;
      RunOf(d[1..], rest);
    } else {
      assert d + rest == rest;
    }
  }

  lemma NumberReadsBack(n: nat, rest: string)
    requires n < QWORD_SIZE && (|rest| > 0 ==> !IsDigit(rest[0]))
    ensures StrToNumber(Decimal(n) + rest) == n
  {
    hide Decimal, Number, Run;
    var s := Decimal(n) + rest;
    assert s[0] == Decimal(n)[0] && IsDigit(s[0]);
    assert SkipSpace(s) == s;
    RunOf(Decimal(n), rest);
    DecimalReadsBack(n);
  }

  /** Moving the starting position past a part that has no dash. */
  lemma {:induction false} SubsSkip(t: string, i: nat, j: nat)
    requires i <= j <= |t| && forall k :: i <= k < j ==> t[k] != '-'
    ensures Subs(t, i) == Subs(t, j)
    decreases j - i
  {
    if i < j { SubsSkip(t, i + 1, j); }
  }

  /** From the start of subauthority `k` on, the parser finds the subauthorities from `k` on. */
  lemma {:induction false} SubsOfText(head: string, subs: seq<nat>, k: nat)
    requires k <= |subs| && (forall v :: v in subs ==> v < DWORD_SIZE)
    ensures var t := head + SubsText(subs); Subs(t, |head| + |SubsText(subs[..k])|) == subs[k..]
    decreases |subs| - k
  {
    hide Decimal, StrToNumber, SubsText;
    var t, at := head + SubsText(subs), |head| + |SubsText(subs[..k])|;
    SubsTextSplit(subs, k);
    if k < |subs| {
      var d := Decimal(subs[k]);
      SubsTextSplit(subs, k + 1);
      SubsTextNext(subs, k);
      var to := at + 1 + |d|;
      assert t[..to] == head + SubsText(subs[..k + 1]);
      assert t[at..to] == "-" + d;
      var rest := t[to..];
      assert t[at] == '-' && t[at + 1..] == d + rest;
      assert |rest| > 0 ==> rest[0] == SubsText(subs)[|SubsText(subs[..k + 1])|] == '-';
      assert subs[k] in subs;
      NumberReadsBack(subs[k], rest);
      SubsOfText(head, subs, k + 1);
      forall i | at + 1 <= i < to ensures t[i] != '-' { assert t[i] == t[at..to][i - at] == d[i - at - 1]; }
      SubsSkip(t, at + 1, to);
      assert subs[k..] == [subs[k]] + subs[k + 1..];
    }
  }

  lemma {:induction false} SubsTextSplit(subs: seq<nat>, k: nat)
    requires k <= |subs|
    ensures SubsText(subs[..k]) <= SubsText(subs)
    ensures k < |subs| ==> |SubsText(subs[..k])| < |SubsText(subs)| && SubsText(subs)[|SubsText(subs[..k])|] == '-'
    ensures k == |subs| ==> SubsText(subs[..k]) == SubsText(subs)
  {
    if k == |subs| {
      assert subs[..k] == subs;
    } else {
      var front := subs[..|subs| - 1];
      assert front[..k] == subs[..k];
      SubsTextSplit(front, k);
    }
  }

  lemma SubsTextNext(subs: seq<nat>, k: nat)
    requires k < |subs|
    ensures SubsText(subs[..k + 1]) == SubsText(subs[..k]) + "-" + Decimal(subs[k])
  {
    assert subs[..k + 1][..k] == subs[..k];
  }

  /** Printed numbers are separated by single dashes. */
  lemma {:induction false} TextIsSeparated(head: string, subs: seq<nat>)
    requires |head| > 0 && forall i :: 0 <= i < |head| ==> IsDigit(head[i])
    ensures Separated(head + SubsText(subs))
  {
    if |subs| > 0 {
      var front, d := head + SubsText(subs[..|subs| - 1]), Decimal(subs[|subs| - 1]);
      TextIsSeparated(head, subs[..|subs| - 1]);
      assert head + SubsText(subs) == front + "-" + d;
    } else {
      assert head + SubsText(subs) == head;
    }
  }

  /** "S-1-5" and 257 times "-5": the byte reads 1. */
  lemma LongTextOverruns()
    ensures Overruns("5" + SubsText(seq(257, _ => 5)))
  {
    hide Decimal, StrToNumber;
    var subs: seq<nat> := seq(257, _ => 5);
    TextIsSeparated("5", subs);
    PrintedSubs("5", subs);
  }

  lemma NoSubs()
    ensures SubsText([]) == ""
  {
  }

  lemma NoDash(c: char)
    ensures IsDigit(c) ==> c != '-'
  {
  }

  lemma PrintedSubs(head: string, subs: seq<nat>)
    requires |head| > 0 && (forall i :: 0 <= i < |head| ==> IsDigit(head[i]))
    requires forall v :: v in subs ==> v < DWORD_SIZE
    ensures Subs(head + SubsText(subs), 0) == subs
  {
    hide SubsText, Subs, IsDigit;
    SubsOfText(head, subs, 0);
    NoSubs();
    assert subs[..0] == [] && subs[0..] == subs;
    forall k | 0 <= k < |head| ensures (head + SubsText(subs))[k] != '-' { NoDash(head[k]); }
    SubsSkip(head + SubsText(subs), 0, |head|);
  }

  /** parse(print(sid)) == sid */
  lemma PrintedIsParsed(sid: Sid)
    requires Valid(sid)
    ensures var s := Text(sid.authority, sid.subs);
            |s| > 4 && s[..4] == PREFIX && s[4] != '-' && Parsed(s[4..]) == Some(sid)
  {
    hide Decimal, StrToNumber;
    var head, s := Decimal(sid.authority), Text(sid.authority, sid.subs);
    var t := head + SubsText(sid.subs);
    assert s[4..] == t && t[0] == head[0];
    TextIsSeparated(head, sid.subs);
    PrintedSubs(head, sid.subs);
    SubsTextSplit(sid.subs, 0);
    assert sid.subs[..0] == [] && SubsText([]) == "";
    NumberReadsBack(sid.authority, SubsText(sid.subs));
  }

  /** A number without leading zeros. */
  predicate Plain(f: string) {
    && |f| >= 1 && (forall k :: 0 <= k < |f| ==> IsDigit(f[k])) && (|f| > 1 ==> f[0] != '0')
  }

  /** Fields joined by dashes. */
  function Joined(fields: seq<string>): string {
    if |fields| == 0 then "" else Joined(fields[..|fields| - 1]) + "-" + fields[|fields| - 1]
  }

  /**
   The fields of a text in the form of MS-DTYP section 2.4.2.1 with a decimal authority: the authority below
   2^48, then 1 to 15 subauthorities below 2^32.
   */
  predicate Canonical(fields: seq<string>) {
    && 2 <= |fields| <= MAX_SUBS + 1 && Plain(fields[0]) && Number(fields[0]) < AUTHORITY_SIZE
    && forall k :: 1 <= k < |fields| ==> Plain(fields[k]) && Number(fields[k]) < DWORD_SIZE
  }

  lemma {:induction false} PlainIsDecimal(f: string)
    requires Plain(f)
    ensures Decimal(Number(f)) == f && (f[0] != '0' ==> Number(f) > 0)
  {
    hide Number, DigitOf, ValueOf;
    var n := |f| - 1;
    NumberGrows(f[..n], f[n]);
    assert f == f[..n] + [f[n]];
    DigitOfValue(f[n]);
    if n > 0 {
      PlainIsDecimal(f[..n]);
      DecimalGrows(Number(f[..n]), ValueOf(f[n]));
    } else {
      assert f[..0] == [];
    }
  }

  lemma DigitOfValue(c: char)
    requires IsDigit(c)
    ensures ValueOf(c) < 10 && DigitOf(ValueOf(c)) == c && (c != '0' ==> ValueOf(c) > 0)
  {
  }

  lemma DecimalGrows(n: nat, v: nat)
    requires n > 0 && v < 10
    ensures Decimal(10 * n + v) == Decimal(n) + [DigitOf(v)]
  {
    assert (10 * n + v) / 10 == n && (10 * n + v) % 10 == v;
    hide DigitOf;
  }

  function Numbers(fields: seq<string>): seq<nat>
    requires forall k :: 0 <= k < |fields| ==> Plain(fields[k])
  {
    if |fields| == 0 then []
    else
      var last := fields[|fields| - 1];
      assert Plain(last);
      Numbers(fields[..|fields| - 1]) + [Number(last)]
  }

  lemma {:induction false} JoinedIsSubsText(fields: seq<string>)
    requires forall k :: 0 <= k < |fields| ==> Plain(fields[k]) && Number(fields[k]) < DWORD_SIZE
    ensures SubsText(Numbers(fields)) == Joined(fields) && |Numbers(fields)| == |fields|
    ensures forall v :: v in Numbers(fields) ==> v < DWORD_SIZE
  {
    hide Number, Decimal;
    if |fields| > 0 {
      var front, last := fields[..|fields| - 1], fields[|fields| - 1];
      JoinedIsSubsText(front);
      PlainIsDecimal(last);
      var ns := Numbers(fields);
      assert ns[..|ns| - 1] == Numbers(front);
    }
  }

  /** print(parse(s)) == s for every canonical text. */
  lemma CanonicalIsPrinted(fields: seq<string>)
    requires Canonical(fields)
    ensures var t := fields[0] + Joined(fields[1..]);
            Parsed(t).Some? && Valid(Parsed(t).value)
            && Text(Parsed(t).value.authority, Parsed(t).value.subs) == PREFIX + t
  {
    hide Decimal, Parsed, Joined, SubsText, Numbers;
    PlainIsDecimal(fields[0]);
    JoinedIsSubsText(fields[1..]);
    var sid := Sid(1, Number(fields[0]), Numbers(fields[1..]));
    var t := fields[0] + Joined(fields[1..]);
    PrintedIsParsed(sid);
    assert Text(sid.authority, sid.subs) == PREFIX + t;
    assert (PREFIX + t)[4..] == t;
  }

  /** Whatever the parser accepts is valid, so printing it succeeds. */
  lemma ParsedIsValid(t: string)
    ensures Parsed(t).Some? ==> Valid(Parsed(t).value)
  {
    hide StrToNumber, Separated;
    SubsBound(t, 0);
  }

  /** What is turned down: dashes in a row or at the end, no subauthority, and more than 15 of them. */
  lemma TurnedDown(a: string, b: string)
    ensures Parsed(a + "--" + b) == None && Parsed(a + "-") == None
    ensures '-' !in a ==> Parsed(a) == None
    ensures |Subs(a, 0)| > 15 ==> Parsed(a) == None
  {
    var t, u := a + "--" + b, a + "-";
    assert t[|a| + 1] == '-' && t[|a| + 1 - 1] == '-';
    assert u[|u| - 1] == '-';
    if '-' !in a {
      forall k | 0 <= k < |a| ensures a[k] != '-' { assert a[k] in a; }
      SubsSkip(a, 0, |a|);
    }
  }

  /** An identifier has 1 to 15 subauthorities of 32 bits, an authority of 48 bits and revision 1. */
  lemma ValidIff(sid: Sid)
    ensures Valid(sid) <==>
            && sid.revision == 1 && sid.authority <= 0xffff_ffff_ffff && 1 <= |sid.subs| <= 15
            && forall k :: 0 <= k < |sid.subs| ==> sid.subs[k] <= 0xffff_ffff
  {
    assert forall k :: 0 <= k < |sid.subs| ==> sid.subs[k] in sid.subs;
  }

  // ---------------------------------------------------------------- numbers in texts

  /** White space and a sign are passed over, a minus negates, other characters end the number, and it saturates. */
  lemma {:induction false} NumbersRead(n: nat, rest: string)
    requires |rest| > 0 ==> !IsDigit(rest[0])
    ensures StrToNumber(Decimal(n) + rest) == if n < QWORD_SIZE then n else QWORD_SIZE - 1
    ensures StrToNumber("+" + Decimal(n) + rest) == if n < QWORD_SIZE then n else QWORD_SIZE - 1
    ensures 0 < n < QWORD_SIZE ==> StrToNumber("-" + Decimal(n) + rest) == QWORD_SIZE - n
  {
    hide Decimal, Number, Run, IsDigit;
    var s := Decimal(n) + rest;
    DigitIsNoSign(s[0]);
    assert s[0] == Decimal(n)[0];
    RunOf(Decimal(n), rest);
    DecimalReadsBack(n);
    var plus, minus := "+" + Decimal(n) + rest, "-" + Decimal(n) + rest;
    assert plus[1..] == s && minus[1..] == s;
    assert SkipSpace(s) == s && SkipSpace(plus) == plus && SkipSpace(minus) == minus;
  }

  lemma DigitIsNoSign(c: char)
    ensures IsDigit(c) ==> !IsSpace(c) && c != '-' && c != '+'
  {
  }

  lemma SpaceIsSkipped(s: string)
    ensures StrToNumber(" " + s) == StrToNumber(s) && StrToNumber("\t" + s) == StrToNumber(s)
    ensures |s| > 0 && !IsDigit(s[0]) && !IsSpace(s[0]) && s[0] != '-' && s[0] != '+' ==> StrToNumber(s) == 0
  {
    assert (" " + s)[1..] == s && ("\t" + s)[1..] == s;
  }
}
