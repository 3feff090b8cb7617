/**
 The timeline index of vmm/fc.c: line offsets computed by SQL window sums over an unordered table, and the lookup
 of the line at a file position.
 */
module Timeline {

  /** A row of timeline_data joined with its string; `id` is the primary key. */
  datatype Row = Row(id: nat, tp: nat, ft: nat, cbu: nat, cbj: nat, cbv: nat)

  /** What is summed: the line lengths of a format, or 1 for every line. */
  datatype Format = Utf8 | Json | Csv | Lines

  /** The length of a row's line: its text and the fixed part of the format. */
  function Width(fmt: Format, r: Row): (w: nat)
    ensures w > 0
  {
    match fmt
    case Utf8 => r.cbu + 74
    case Json => r.cbj + 170
    case Csv => r.cbv + 77
    case Lines => 1
  }

  /** ORDER BY ft DESC, id */
  predicate Before(a: Row, b: Row) { a.ft > b.ft || (a.ft == b.ft && a.id < b.id) }

  /** A partition: all rows (0), or the rows of one type. */
  predicate InPart(tp: nat, r: Row) { tp == 0 || r.tp == tp }

  /** In a listing later times come first, and of rows with the same time the one inserted first. */
  lemma NewestComeFirst(lines: seq<Row>, rows: seq<Row>, i: nat, j: nat)
    requires Listing(lines, rows) && i < j < |lines|
    ensures lines[i].ft >= lines[j].ft && (lines[i].ft == lines[j].ft ==> lines[i].id < lines[j].id)
  {
    assert Before(lines[i], lines[j]);
  }

  /** Which length goes with which format, and the fixed part of its lines. */
  lemma WidthsOfARow()
    ensures var r := Row(7, 2, 131_000, 10, 200, 3_000);
            Width(Utf8, r) == 84 && Width(Json, r) == 370 && Width(Csv, r) == 3_077 && Width(Lines, r) == 1
  {
  }

  function Sum(f: Row -> nat, rows: seq<Row>): nat {
    if |rows| == 0 then 0 else f(rows[0]) + Sum(f, rows[1..])
  }

  // The summands, named so that two sums over the same thing are the same sum.
  function Wide(fmt: Format): Row -> nat { (x: Row) => Width(fmt, x) }
  function UpTo(fmt: Format, r: Row): Row -> nat { (x: Row) => if Before(x, r) || x == r then Width(fmt, x) else 0 }
  function OnlyPart(f: Row -> nat, tp: nat): Row -> nat { (x: Row) => if InPart(tp, x) then f(x) else 0 }
  function FirstTypes(fmt: Format, n: nat): Row -> nat { (x: Row) => if 1 <= x.tp <= n then Width(fmt, x) else 0 }

  /** What row `x` adds to the window sum of `r`; the window ends with `r` itself, which is subtracted again. */
  function InWindow(fmt: Format, tp: nat, r: Row): Row -> nat {
    (x: Row) => if InPart(tp, x) && (Before(x, r) || x == r) then Width(fmt, x) else 0
  }

  /** SUM(width) OVER ([PARTITION BY tp] ORDER BY ft DESC, id) - width */
  function LineOffset(fmt: Format, tp: nat, rows: seq<Row>, r: Row): int {
    Sum(InWindow(fmt, tp, r), rows) - Width(fmt, r)
  }

  /** Keys are unique. */
  predicate Keyed(rows: seq<Row>) { forall i, j :: 0 <= i < j < |rows| ==> rows[i].id != rows[j].id }

  predicate Ordered(lines: seq<Row>) { forall i, j :: 0 <= i < j < |lines| ==> Before(lines[i], lines[j]) }

  /** `lines` are the rows in the order in which they are inserted into the timeline. */
  ghost predicate Listing(lines: seq<Row>, rows: seq<Row>) { Ordered(lines) && multiset(lines) == multiset(rows) }

  function Inserted(r: Row, lines: seq<Row>): seq<Row> {
    if |lines| == 0 || Before(r, lines[0]) then [r] + lines else [lines[0]] + Inserted(r, lines[1..])
  }

  function Arranged(rows: seq<Row>): seq<Row> { if |rows| == 0 then [] else Inserted(rows[0], Arranged(rows[1..])) }

  lemma {:induction false} InsertedFits(r: Row, lines: seq<Row>)
    requires Ordered(lines) && forall k :: 0 <= k < |lines| ==> lines[k].id != r.id
    ensures Ordered(Inserted(r, lines)) && multiset(Inserted(r, lines)) == multiset(lines) + multiset{r}
  {
    if |lines| > 0 && !Before(r, lines[0]) {
      InsertedFits(r, lines[1..]);
      var rest := Inserted(r, lines[1..]);
      assert lines == [lines[0]] + lines[1..];
      forall k | 0 <= k < |rest| ensures Before(lines[0], rest[k]) {
        assert rest[k] in multiset(lines[1..]) + multiset{r};
        assert rest[k] == r || rest[k] in lines[1..];
      }
    }
  }

  /** Every table with unique keys has a listing. */
  lemma {:induction false} ListingExists(rows: seq<Row>)
    requires Keyed(rows)
    ensures Listing(Arranged(rows), rows)
  {
    if |rows| > 0 {
      ListingExists(rows[1..]);
      var rest := Arranged(rows[1..]);
      forall k | 0 <= k < |rest| ensures rest[k].id != rows[0].id {
        assert rest[k] in multiset(rows[1..]);
        assert rest[k] in rows[1..];
      }
      InsertedFits(rows[0], rest);
      assert rows == [rows[0]] + rows[1..];
    }
  }

  // ---------------------------------------------------------------- sums

  lemma {:induction false} SumSplit(f: Row -> nat, a: seq<Row>, b: seq<Row>)
    ensures Sum(f, a + b) == Sum(f, a) + Sum(f, b)
  {
    if |a| == 0 {
      assert a + b == b;
    } else {
      assert (a + b)[1..] == a[1..] + b;
      SumSplit(f, a[1..], b);
    }
  }

  /** A sum does not depend on the order of the rows. */
  lemma {:induction false} SumPermutes(f: Row -> nat, a: seq<Row>, b: seq<Row>)
    requires multiset(a) == multiset(b)
    ensures Sum(f, a) == Sum(f, b)
  {
    if |a| == 0 {
      assert |multiset(b)| == 0;
    } else {
      assert a == [a[0]] + a[1..];
      assert a[0] in multiset(b);
      var k :| 0 <= k < |b| && b[k] == a[0];
      PullOut(f, b, k);
      PullOutElement(b, k);
      var rest := b[..k] + b[k + 1..];
      assert multiset(a) == multiset(a[1..]) + multiset{a[0]};
      assert multiset(a[1..]) == multiset(a) - multiset{a[0]};
      assert multiset(rest) == multiset(b) - multiset{a[0]};
      SumPermutes(f, a[1..], rest);
    }
  }

  lemma PullOut(f: Row -> nat, b: seq<Row>, k: nat)
    requires k < |b|
    ensures Sum(f, b) == f(b[k]) + Sum(f, b[..k] + b[k + 1..])
  {
    var tail := b[k + 1..];
    assert b == b[..k] + ([b[k]] + tail) && ([b[k]] + tail)[1..] == tail;
    SumSplit(f, b[..k], [b[k]] + tail);
    SumSplit(f, b[..k], tail);
  }

  lemma PullOutElement(b: seq<Row>, k: nat)
    requires k < |b|
    ensures multiset(b) == multiset(b[..k] + b[k + 1..]) + multiset{b[k]}
  {
    assert b == b[..k] + [b[k]] + b[k + 1..];
  }

  lemma {:induction false} SumSame(f: Row -> nat, g: Row -> nat, rows: seq<Row>)
    requires forall r :: r in rows ==> f(r) == g(r)
    ensures Sum(f, rows) == Sum(g, rows)
  {
    if |rows| > 0 { SumSame(f, g, rows[1..]); }
  }

  lemma {:induction false} SumNothing(f: Row -> nat, rows: seq<Row>)
    requires forall r :: r in rows ==> f(r) == 0
    ensures Sum(f, rows) == 0
  {
    if |rows| > 0 { SumNothing(f, rows[1..]); }
  }

  // ---------------------------------------------------------------- lines of a file

  /** The lines of the file of a partition, in order. */
  function Part(tp: nat, lines: seq<Row>): seq<Row> {
    if |lines| == 0 then []
    else (if InPart(tp, lines[0]) then [lines[0]] else []) + Part(tp, lines[1..])
  }

  function Widths(fmt: Format, lines: seq<Row>): nat { Sum(Wide(fmt), lines) }

  lemma {:induction false} PartOf(tp: nat, lines: seq<Row>, r: Row)
    ensures r in Part(tp, lines) <==> r in lines && InPart(tp, r)
  {
    if |lines| > 0 {
      PartOf(tp, lines[1..], r);
      assert r in lines <==> r == lines[0] || r in lines[1..];
    }
  }

  lemma {:induction false} PartOrdered(tp: nat, lines: seq<Row>)
    requires Ordered(lines)
    ensures Ordered(Part(tp, lines))
  {
    if |lines| > 0 {
      var rest := Part(tp, lines[1..]);
      PartOrdered(tp, lines[1..]);
      forall k | 0 <= k < |rest| ensures Before(lines[0], rest[k]) {
        PartOf(tp, lines[1..], rest[k]);
      }
    }
  }

  /** Summing over a partition is summing over everything and ignoring the rest. */
  lemma {:induction false} SumPart(f: Row -> nat, tp: nat, lines: seq<Row>)
    ensures Sum(f, Part(tp, lines)) == Sum(OnlyPart(f, tp), lines)
  {
    if |lines| > 0 {
      SumPart(f, tp, lines[1..]);
      SumSplit(f, if InPart(tp, lines[0]) then [lines[0]] else [], Part(tp, lines[1..]));
    }
  }

  /** In order, the window of line `i` is the lines up to it. */
  lemma WindowIsPrefix(fmt: Format, lines: seq<Row>, i: nat)
    requires Ordered(lines) && i < |lines|
    ensures Sum(UpTo(fmt, lines[i]), lines) == Widths(fmt, lines[..i]) + Width(fmt, lines[i])
  {
    var f, w := UpTo(fmt, lines[i]), Wide(fmt);
    assert lines == lines[..i + 1] + lines[i + 1..] && lines[..i + 1] == lines[..i] + [lines[i]];
    SumSplit(f, lines[..i + 1], lines[i + 1..]);
    SumSplit(w, lines[..i], [lines[i]]);
    AroundLine(fmt, lines, i);
    SumNothing(f, lines[i + 1..]);
    SumSame(f, w, lines[..i + 1]);
  }

  lemma AroundLine(fmt: Format, lines: seq<Row>, i: nat)
    requires Ordered(lines) && i < |lines|
    ensures forall r :: r in lines[..i + 1] ==> UpTo(fmt, lines[i])(r) == Wide(fmt)(r)
    ensures forall r :: r in lines[i + 1..] ==> UpTo(fmt, lines[i])(r) == 0
  {
    hide Width;
    forall r | r in lines[i + 1..] ensures UpTo(fmt, lines[i])(r) == 0 {
      var k :| i + 1 <= k < |lines| && lines[k] == r;
      assert Before(lines[i], r);
    }
    forall r | r in lines[..i + 1] ensures UpTo(fmt, lines[i])(r) == Wide(fmt)(r) {
      var k :| 0 <= k < i + 1 && lines[k] == r;
      assert k == i || Before(r, lines[i]);
    }
  }

  /**
   The window sum over the unordered table is the prefix sum over the file: the offset of a file's line is the
   total length of the lines before it. This holds for the whole timeline and for every type.
   */
  lemma OffsetIsPrefixSum(fmt: Format, tp: nat, rows: seq<Row>, lines: seq<Row>, i: nat)
    requires Listing(lines, rows) && i < |Part(tp, lines)|
    ensures LineOffset(fmt, tp, rows, Part(tp, lines)[i]) == Widths(fmt, Part(tp, lines)[..i])
  {
    var file := Part(tp, lines);
    var r := file[i];
    var f := UpTo(fmt, r);
    SumPermutes(InWindow(fmt, tp, r), rows, lines);
    SumSame(InWindow(fmt, tp, r), OnlyPart(f, tp), lines);
    SumPart(f, tp, lines);
    PartOrdered(tp, lines);
    WindowIsPrefix(fmt, file, i);
  }

  /** The lines of a file lie end to end from 0 on. */
  lemma LinesLieEndToEnd(fmt: Format, tp: nat, rows: seq<Row>, lines: seq<Row>, i: nat)
    requires Listing(lines, rows) && i < |Part(tp, lines)|
    ensures var file := Part(tp, lines);
            && (i == 0 ==> LineOffset(fmt, tp, rows, file[i]) == 0)
            && (i + 1 < |file| ==>
                  LineOffset(fmt, tp, rows, file[i + 1]) == LineOffset(fmt, tp, rows, file[i]) + Width(fmt, file[i]))
            && (i + 1 == |file| ==> LineOffset(fmt, tp, rows, file[i]) + Width(fmt, file[i]) == Widths(fmt, file))
  {
    var file := Part(tp, lines);
    OffsetIsPrefixSum(fmt, tp, rows, lines, i);
    if i + 1 < |file| { OffsetIsPrefixSum(fmt, tp, rows, lines, i + 1); }
    assert file[..i + 1] == file[..i] + [file[i]];
    SumSplit(Wide(fmt), file[..i], [file[i]]);
    if i + 1 == |file| { assert file[..i + 1] == file; }
  }

  lemma {:induction false} OneEach(lines: seq<Row>)
    ensures Widths(Lines, lines) == |lines|
  {
    if |lines| > 0 { OneEach(lines[1..]); }
  }

  /** The number SUM(1) gives a line of a file is its place in the file, counted from 1. */
  lemma NumberIsPlace(tp: nat, rows: seq<Row>, lines: seq<Row>, i: nat)
    requires Listing(lines, rows) && i < |Part(tp, lines)|
    ensures Sum(InWindow(Lines, tp, Part(tp, lines)[i]), rows) == i + 1
  {
    OffsetIsPrefixSum(Lines, tp, rows, lines, i);
    OneEach(Part(tp, lines)[..i]);
  }

  // ---------------------------------------------------------------- file sizes

  /** oln + cb + fixed part of the entry with the largest id; 0 for a type without entries. */
  function FileSize(fmt: Format, tp: nat, rows: seq<Row>, lines: seq<Row>): int {
    var file := Part(tp, lines);
    if |file| == 0 then 0 else LineOffset(fmt, tp, rows, file[|file| - 1]) + Width(fmt, file[|file| - 1])
  }

  /** The sizes of the files of the types 1 .. n. */
  function TypeSizes(fmt: Format, n: nat, rows: seq<Row>, lines: seq<Row>): int {
    if n == 0 then 0 else TypeSizes(fmt, n - 1, rows, lines) + FileSize(fmt, n, rows, lines)
  }

  lemma SizeIsTotal(fmt: Format, tp: nat, rows: seq<Row>, lines: seq<Row>)
    requires Listing(lines, rows)
    ensures FileSize(fmt, tp, rows, lines) == Widths(fmt, Part(tp, lines))
  {
    var file := Part(tp, lines);
    if |file| > 0 { LinesLieEndToEnd(fmt, tp, rows, lines, |file| - 1); }
  }

  lemma {:induction false} TypesSoFar(fmt: Format, n: nat, rows: seq<Row>, lines: seq<Row>)
    requires Listing(lines, rows)
    ensures TypeSizes(fmt, n, rows, lines) == Sum(FirstTypes(fmt, n), lines)
  {
    if n == 0 {
      SumNothing(FirstTypes(fmt, n), lines);
    } else {
      TypesSoFar(fmt, n - 1, rows, lines);
      SizeIsTotal(fmt, n, rows, lines);
      SumPart(Wide(fmt), n, lines);
      SumAdds(FirstTypes(fmt, n - 1), OnlyPart(Wide(fmt), n), FirstTypes(fmt, n), lines);
    }
  }

  lemma {:induction false} SumAdds(f: Row -> nat, g: Row -> nat, h: Row -> nat, rows: seq<Row>)
    requires forall r :: r in rows ==> f(r) + g(r) == h(r)
    ensures Sum(f, rows) + Sum(g, rows) == Sum(h, rows)
  {
    if |rows| > 0 { SumAdds(f, g, h, rows[1..]); }
  }

  /** The files of all types together are as long as the file of everything. */
  lemma TypeSizesAddUp(fmt: Format, n: nat, rows: seq<Row>, lines: seq<Row>)
    requires Listing(lines, rows) && forall r :: r in lines ==> 1 <= r.tp <= n
    ensures TypeSizes(fmt, n, rows, lines) == FileSize(fmt, 0, rows, lines)
  {
    TypesSoFar(fmt, n, rows, lines);
    SizeIsTotal(fmt, 0, rows, lines);
    SumPart(Wide(fmt), 0, lines);
    SumSame(FirstTypes(fmt, n), OnlyPart(Wide(fmt), 0), lines);
  }

  // ---------------------------------------------------------------- from position to line

  /** SELECT MAX(id) ... WHERE oln >= lo AND oln <= hi, over lines numbered from 1; 0 stands for NULL. */
  function MaxId(offsets: seq<int>, lo: int, hi: int): (id: nat)
    ensures id <= |offsets| && (id > 0 ==> lo <= offsets[id - 1] <= hi)
    ensures forall k :: id <= k < |offsets| ==> !(lo <= offsets[k] <= hi)
  {
    if |offsets| == 0 then 0
    else if lo <= offsets[|offsets| - 1] <= hi then |offsets|
    else MaxId(offsets[..|offsets| - 1], lo, hi)
  }

  function Offsets(fmt: Format, tp: nat, rows: seq<Row>, file: seq<Row>): (o: seq<int>)
    ensures |o| == |file| && forall k :: 0 <= k < |o| ==> o[k] == LineOffset(fmt, tp, rows, file[k])
  {
    seq(|file|, k requires 0 <= k < |file| => LineOffset(fmt, tp, rows, file[k]))
  }

  const WINDOW: nat := 4096

  /** FcTimeline_GetIdFromPosition; there is no file of one type in JSON. */
  function IdFromPosition(fmt: Format, tp: nat, rows: seq<Row>, lines: seq<Row>, pos: nat): nat
    requires tp == 0 || !fmt.Json?
  {
    MaxId(Offsets(fmt, tp, rows, Part(tp, lines)), if pos > WINDOW then pos - WINDOW else 0, pos)
  }

  /** The byte at `pos` belongs to line `i` of the file. */
  predicate At(fmt: Format, tp: nat, rows: seq<Row>, file: seq<Row>, i: nat, pos: nat)
    requires i < |file|
  {
    var o := LineOffset(fmt, tp, rows, file[i]);
    o <= pos < o + Width(fmt, file[i])
  }

  lemma {:induction false} WidthsGrow(fmt: Format, file: seq<Row>, i: nat, j: nat)
    requires i <= j <= |file|
    ensures Widths(fmt, file[..i]) <= Widths(fmt, file[..j])
    ensures i < j ==> Widths(fmt, file[..i]) + Width(fmt, file[i]) <= Widths(fmt, file[..j])
  {
    if i < j {
      WidthsGrow(fmt, file, i, j - 1);
      assert file[..j] == file[..j - 1] + [file[j - 1]];
      SumSplit(Wide(fmt), file[..j - 1], [file[j - 1]]);
    }
  }

  /** Every position inside a file belongs to one of its lines, ... */
  lemma {:induction false} SomeLineAt(fmt: Format, tp: nat, rows: seq<Row>, lines: seq<Row>, pos: nat, n: nat)
    returns (i: nat)
    requires Listing(lines, rows) && n <= |Part(tp, lines)| && pos < Widths(fmt, Part(tp, lines)[..n])
    ensures i < n && At(fmt, tp, rows, Part(tp, lines), i, pos)
  {
    var file := Part(tp, lines);
    assert file[..0] == [] && Widths(fmt, []) == 0;
    OffsetIsPrefixSum(fmt, tp, rows, lines, n - 1);
    if pos < Widths(fmt, file[..n - 1]) {
      i := SomeLineAt(fmt, tp, rows, lines, pos, n - 1);
    } else {
      i := n - 1;
      assert file[..n] == file[..n - 1] + [file[n - 1]];
      SumSplit(Wide(fmt), file[..n - 1], [file[n - 1]]);
    }
  }

  /** ... and only one. */
  lemma OneLineAt(fmt: Format, tp: nat, rows: seq<Row>, lines: seq<Row>, i: nat, j: nat, pos: nat)
    requires Listing(lines, rows) && i < |Part(tp, lines)| && j < |Part(tp, lines)|
    requires At(fmt, tp, rows, Part(tp, lines), i, pos) && At(fmt, tp, rows, Part(tp, lines), j, pos)
    ensures i == j
  {
    hide LineOffset;
    var file := Part(tp, lines);
    OffsetIsPrefixSum(fmt, tp, rows, lines, i);
    OffsetIsPrefixSum(fmt, tp, rows, lines, j);
    if i < j { WidthsGrow(fmt, file, i, j); }
    if j < i { WidthsGrow(fmt, file, j, i); }
  }

  /**
   The lookup finds the line at a position exactly when the line starts at most 4096 bytes before it; else it
   finds nothing, never a wrong line.
   */
  lemma LookupFindsLineIff(fmt: Format, tp: nat, rows: seq<Row>, lines: seq<Row>, i: nat, pos: nat)
    requires (tp == 0 || !fmt.Json?) && Listing(lines, rows) && i < |Part(tp, lines)|
    requires At(fmt, tp, rows, Part(tp, lines), i, pos)
    ensures IdFromPosition(fmt, tp, rows, lines, pos) ==
            if pos - LineOffset(fmt, tp, rows, Part(tp, lines)[i]) <= 4096 then i + 1 else 0
  {
    hide LineOffset, Widths, Sum;
    var file := Part(tp, lines);
    var id := IdFromPosition(fmt, tp, rows, lines, pos);
    OffsetIsPrefixSum(fmt, tp, rows, lines, i);
    if id > 0 {
      OffsetIsPrefixSum(fmt, tp, rows, lines, id - 1);
      if id - 1 < i { WidthsGrow(fmt, file, id - 1, i); }
      if i < id - 1 { WidthsGrow(fmt, file, i, id - 1); }
    }
  }

  /** With lines of at most 4097 bytes every position inside the file is found. */
  lemma ShortLinesAreFound(fmt: Format, tp: nat, rows: seq<Row>, lines: seq<Row>, pos: nat) returns (i: nat)
    requires (tp == 0 || !fmt.Json?) && Listing(lines, rows)
    requires pos < FileSize(fmt, tp, rows, lines) && forall r :: r in rows ==> Width(fmt, r) <= 4097
    ensures i < |Part(tp, lines)| && At(fmt, tp, rows, Part(tp, lines), i, pos)
    ensures IdFromPosition(fmt, tp, rows, lines, pos) == i + 1
  {
    var file := Part(tp, lines);
    SizeIsTotal(fmt, tp, rows, lines);
    assert file[..|file|] == file;
    i := SomeLineAt(fmt, tp, rows, lines, pos, |file|);
    LookupFindsLineIff(fmt, tp, rows, lines, i, pos);
    PartOf(tp, lines, file[i]);
    assert file[i] in multiset(lines) && file[i] in multiset(rows);
  }
}
