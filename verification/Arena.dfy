/** The string arena of vmm/fc.c: FcCsv_Reset, FcCsv_String and FcCsv_FileTime on a VMMDLL_CSV_HANDLE. */
module Arena {
  import opened Transcode
  import opened Csv

  const ARENA_SIZE: dword := 0x0010_0000
  const FILETIME_SIZE: dword := 22

  /** A string handed out: its NUL-free bytes, at `at`; `size` bytes belong to it. */
  datatype Loan = Loan(at: nat, text: seq<bv8>, size: nat)

  /** What the caller gets: the constant empty string, or a pointer into the arena. */
  datatype Pointer = EmptyConstant | At(offset: nat)

  predicate LoanIn(l: Loan, cells: seq<bv8>) {
    l.at + l.size <= |cells| && |l.text| < l.size && cells[l.at..l.at + |l.text| + 1] == l.text + [0]
  }

  /** The loans lie end to end from the start of the arena, each with its text intact. */
  predicate EndToEnd(loans: seq<Loan>, cells: seq<bv8>, end: nat) {
    if |loans| == 0 then end == 0
    else
      var l := loans[|loans| - 1];
      l.at + l.size == end && LoanIn(l, cells) && EndToEnd(loans[..|loans| - 1], cells, l.at)
  }

  /** Two strings handed out since the last reset never overlap, and both are still readable. */
  lemma {:induction false} LoansAreDisjoint(loans: seq<Loan>, cells: seq<bv8>, end: nat, i: nat, j: nat)
    requires EndToEnd(loans, cells, end) && i <= j < |loans|
    ensures LoanIn(loans[i], cells) && LoanIn(loans[j], cells) && loans[j].at + loans[j].size <= end
    ensures i < j ==> loans[i].at + loans[i].size <= loans[j].at
  {
    var n := |loans| - 1;
    if j < n {
      LoansAreDisjoint(loans[..n], cells, loans[n].at, i, j);
    } else if i < n {
      LoansAreDisjoint(loans[..n], cells, loans[n].at, i, i);
    }
  }

  lemma SliceOfPrefix(s: seq<bv8>, end: nat, a: nat, b: nat)
    requires a <= b <= end <= |s|
    ensures s[..end][a..b] == s[a..b]
  {
  }

  /** Writing at or after `end` disturbs no loan. */
  lemma {:induction false} LoansSurvive(loans: seq<Loan>, cells: seq<bv8>, after: seq<bv8>, end: nat)
    requires EndToEnd(loans, cells, end) && |after| == |cells| && end <= |cells| && after[..end] == cells[..end]
    ensures EndToEnd(loans, after, end)
  {
    if |loans| > 0 {
      var l := loans[|loans| - 1];
      var n := l.at + |l.text| + 1;
      SliceOfPrefix(after, end, l.at, n);
      SliceOfPrefix(cells, end, l.at, n);
      SliceOfPrefix(after, end, 0, l.at);
      SliceOfPrefix(cells, end, 0, l.at);
      LoansSurvive(loans[..|loans| - 1], cells, after, l.at);
    }
  }

  lemma LoanAdded(loans: seq<Loan>, cells: seq<bv8>, after: seq<bv8>, end: nat, l: Loan)
    requires EndToEnd(loans, cells, end) && |after| == |cells| && end <= |cells| && after[..end] == cells[..end]
    requires l.at == end && LoanIn(l, after)
    ensures EndToEnd(loans + [l], after, end + l.size)
  {
    LoansSurvive(loans, cells, after, end);
    assert (loans + [l])[..|loans|] == loans;
  }

  class CsvHandle {
    var o: dword
    const pb: array<bv8>
    /** Every string handed out since the last reset. */
    ghost var loans: seq<Loan>

    ghost predicate Valid()
      reads this, pb
    {
      pb.Length == ARENA_SIZE && o <= ARENA_SIZE && EndToEnd(loans, pb[..], o)
    }

    constructor ()
      ensures Valid() && loans == [] && fresh(pb)
    {
      o, loans := 0, [];
      pb := new bv8[ARENA_SIZE];
    }

    method Reset()
      requires Valid()
      modifies this
      ensures Valid() && o == 0 && loans == []
    {
      o, loans := 0, [];
    }

    /** `text` is what Util_FileTime2CSV writes: at most 21 bytes and a NUL. */
    method FileTime(text: seq<bv8>) returns (p: Pointer)
      requires Valid() && |text| < FILETIME_SIZE && 0 !in text
      modifies this, pb
      ensures Valid()
      ensures if 0x0010_0000 - old(o) > 22 then
                p == At(old(o)) && loans == old(loans) + [Loan(old(o), text, 22)]
              else
                p == EmptyConstant && loans == old(loans) && o == old(o) && pb[..] == old(pb[..])
    {
      if ARENA_SIZE - o <= FILETIME_SIZE { return EmptyConstant; }
      var n, at := 0, o;
      p := At(at);
      ghost var before, loan := pb[..], Loan(at, text, FILETIME_SIZE);
      while n < |text|
        invariant n <= |text| && pb[..at] == before[..at] && pb[at..at + n] == text[..n]
        invariant o == at && loans == old(loans)
      {
        pb[at + n] := text[n];
        n := n + 1;
      }
      pb[at + n] := 0;
      assert pb[at..at + n] == text;
      LoanAdded(loans, before, pb[..], o, loan);
      o, loans := o + FILETIME_SIZE, loans + [loan];
    }

    method Store(s: array<bv8>, cbu: dword, cbv: dword, fCSV: bool)
      requires Valid() && s != pb && s.Length > 0
      requires 1 <= cbu <= CONVERT_MAXSIZE + 1 && cbu - 1 <= s.Length
               && fCSV == (s[0] == 0 || NeedsQuotes(s[..cbu - 1]))
      requires cbv == |Field(s[0] == 0, s[..cbu - 1])| + 1 && ARENA_SIZE - o > cbv
      modifies this, pb
      ensures Valid()
      ensures loans == old(loans) + [Loan(old(o), Field(s[0] == 0, s[..cbu - 1]), cbv)]
    {
      hide Field, NeedsQuotes, EndToEnd, FlatMap;
      ghost var before, field := pb[..], Field(s[0] == 0, s[..cbu - 1]);
      FieldLength(s[0] == 0, s[..cbu - 1]);
      FillCsv(s, pb, o, cbu, cbv, fCSV);
      LoanAdded(loans, before, pb[..], o, Loan(o, field, cbv));
      o, loans := o + cbv, loans + [Loan(o, field, cbv)];
    }

    /** Measures the field first and writes it only if it fits with a byte to spare. */
    method String(usz: array?<bv8>) returns (p: Pointer)
      requires Valid() && Readable(usz, 0, 0xffff_ffff) && usz != pb
      modifies this, pb
      ensures Valid()
      ensures var field := CsvText(old(Text(usz, 0, 0xffff_ffff)), old(StartsEmpty(usz)), CONVERT_MAXSIZE, 0, 0);
              if field.Some? && 0x0010_0000 - old(o) > |field.value| + 1 then
                p == At(old(o)) && loans == old(loans) + [Loan(old(o), field.value, |field.value| + 1)]
              else
                p == EmptyConstant && loans == old(loans) && o == old(o) && pb[..] == old(pb[..])
    {
      hide AcceptedCsv, Field, NeedsQuotes, EndToEnd, Terminated, Strnlen;
      var s := Source(usz, 0, 0xffff_ffff);
      ghost var t := Text(usz, 0, 0xffff_ffff);
      assert StartsEmpty(usz) == (s[0] == 0) && s[..Strnlen(s[..], 0, CONVERT_MAXSIZE)] == t;
      var ok, cbu, cbv, fCSV, cs := CountCsv(s, CONVERT_MAXSIZE, 0, 0);
      if !ok || ARENA_SIZE - o <= cbv + 1 { return EmptyConstant; }
      assert s[..cbu] == t[..cbu];
      p := At(o);
      Store(s, cbu + 1, cbv + 1, fCSV);
    }
  }
}
