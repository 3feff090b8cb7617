/** What a row of fields written by CharUtil_UtoCSV means to a reader of RFC 4180, section 2. */
module CsvRow {
  import opened Transcode
  import opened Unicode
  import opened Narrow
  import opened Csv

  // ---------------------------------------------------------------- the reader

  /** TEXTDATA, with every byte of a multi-byte character. */
  predicate TextData(b: bv8) { b >= 0x20 && b != QUOTE && b != COMMA }

  /** What may stand between quotes unescaped. */
  predicate Enclosable(b: bv8) { TextData(b) || b == COMMA || b == 0x0d || b == 0x0a }

  datatype Read = Read(field: seq<bv8>, rest: seq<bv8>)

  /** The rest of a quoted field, up to and including its closing quote. */
  function ReadQuoted(s: seq<bv8>): (r: Option<Read>)
    ensures r.Some? ==> |r.value.rest| < |s|
  {
    if |s| == 0 then None
    else if s[0] != QUOTE then
      if Enclosable(s[0]) then Prepend(s[0], ReadQuoted(s[1..])) else None
    else if |s| > 1 && s[1] == QUOTE then Prepend(QUOTE, ReadQuoted(s[2..]))
    else Some(Read([], s[1..]))
  }

  function ReadPlain(s: seq<bv8>): (r: Read)
    ensures |r.rest| <= |s|
  {
    if |s| == 0 || !TextData(s[0]) then Read([], s)
    else
      var r := ReadPlain(s[1..]);
      Read([s[0]] + r.field, r.rest)
  }

  function Prepend(b: bv8, r: Option<Read>): Option<Read> {
    match r
    case None => None
    case Some(read) => Some(Read([b] + read.field, read.rest))
  }

  function ReadField(s: seq<bv8>): (r: Option<Read>)
    ensures r.Some? ==> |r.value.rest| <= |s|
  {
    if |s| > 0 && s[0] == QUOTE then ReadQuoted(s[1..]) else Some(ReadPlain(s))
  }

  /** record = field *(COMMA field) */
  function ReadRecord(s: seq<bv8>): Option<seq<seq<bv8>>>
    decreases |s|
  {
    match ReadField(s)
    case None => None
    case Some(read) =>
      if |read.rest| == 0 then Some([read.field])
      else if read.rest[0] != COMMA then None
      else match ReadRecord(read.rest[1..])
           case None => None
           case Some(fields) => Some([read.field] + fields)
  }

  // ---------------------------------------------------------------- the writer

  /** The bytes of a text, and whether the text was empty from the start, as UtoCSV sees them. */
  datatype Item = Item(empty: bool, bytes: seq<bv8>)

  predicate Valid(items: seq<Item>) { forall i :: i in items && i.empty ==> i.bytes == [] }

  function Row(items: seq<Item>): seq<bv8>
    requires |items| > 0
  {
    var field := Field(items[0].empty, items[0].bytes);
    if |items| == 1 then field else field + [COMMA] + Row(items[1..])
  }

  /** Control bytes are not kept. */
  function Mask(b: bv8): bv8 { if b < 0x20 then QUESTION else b }

  function Masked(u: seq<bv8>): (r: seq<bv8>)
    ensures |r| == |u| && forall k :: 0 <= k < |u| ==> r[k] == Mask(u[k])
  {
    seq(|u|, k requires 0 <= k < |u| => Mask(u[k]))
  }

  function MaskedAll(items: seq<Item>): (r: seq<seq<bv8>>)
    ensures |r| == |items| && forall k :: 0 <= k < |items| ==> r[k] == Masked(items[k].bytes)
  {
    seq(|items|, k requires 0 <= k < |items| => Masked(items[k].bytes))
  }

  // ---------------------------------------------------------------- reading what was written

  lemma ByteForms(b: bv8)
    ensures b == QUOTE ==> CsvByte(b) == [QUOTE, QUOTE] && Mask(b) == QUOTE
    ensures b != QUOTE ==> CsvByte(b) == [Mask(b)] && Enclosable(Mask(b)) && Mask(b) != QUOTE
    ensures !Quoting(b) ==> CsvByte(b) == [Mask(b)] && TextData(Mask(b))
  {
  }

  lemma MaskedCons(u: seq<bv8>)
    ensures if |u| == 0 then Masked(u) == [] else Masked(u) == [Mask(u[0])] + Masked(u[1..])
  {
  }

  lemma FrontIsPlain(u: seq<bv8>)
    requires |u| > 0 && !NeedsQuotes(u)
    ensures !Quoting(u[0]) && !NeedsQuotes(u[1..])
  {
    assert u[0] in u && forall b :: b in u[1..] ==> b in u;
  }

  predicate Ends(rest: seq<bv8>) { |rest| > 0 ==> rest[0] == COMMA }

  lemma {:induction false} QuotedReadsBack(u: seq<bv8>, rest: seq<bv8>)
    requires Ends(rest)
    ensures ReadQuoted(FlatMap(CsvByte, u) + [QUOTE] + rest) == Some(Read(Masked(u), rest))
  {
    hide CsvByte, Mask, Enclosable, Masked;
    MaskedCons(u);
    var s := FlatMap(CsvByte, u) + [QUOTE] + rest;
    if |u| == 0 {
      assert s == [QUOTE] + rest && s[1..] == rest;
    } else {
      var tail := FlatMap(CsvByte, u[1..]) + [QUOTE] + rest;
      ByteForms(u[0]);
      assert s == CsvByte(u[0]) + tail;
      QuotedReadsBack(u[1..], rest);
      if u[0] == QUOTE {
        assert s[2..] == tail;
      } else {
        assert s[1..] == tail;
      }
    }
  }

  lemma {:induction false} PlainReadsBack(u: seq<bv8>, rest: seq<bv8>)
    requires Ends(rest) && !NeedsQuotes(u)
    ensures ReadPlain(FlatMap(CsvByte, u) + rest) == Read(Masked(u), rest)
    ensures |u| > 0 ==> |FlatMap(CsvByte, u)| > 0 && FlatMap(CsvByte, u)[0] != QUOTE
  {
    hide CsvByte, Mask, Quoting, Masked, NeedsQuotes;
    MaskedCons(u);
    var s := FlatMap(CsvByte, u) + rest;
    if |u| == 0 {
      assert s == rest;
    } else {
      FrontIsPlain(u);
      ByteForms(u[0]);
      PlainReadsBack(u[1..], rest);
      assert s[1..] == FlatMap(CsvByte, u[1..]) + rest;
    }
  }

  /** One field, followed by the end of the row or by a comma. */
  lemma FieldReadsBack(i: Item, rest: seq<bv8>)
    requires Ends(rest) && (i.empty ==> i.bytes == [])
    ensures ReadField(Field(i.empty, i.bytes) + rest) == Some(Read(Masked(i.bytes), rest))
  {
    hide CsvByte, NeedsQuotes;
    var body := FlatMap(CsvByte, i.bytes);
    if i.empty || NeedsQuotes(i.bytes) {
      QuotedReadsBack(i.bytes, rest);
      assert (Field(i.empty, i.bytes) + rest)[1..] == body + [QUOTE] + rest;
    } else {
      PlainReadsBack(i.bytes, rest);
      assert Field(i.empty, i.bytes) + rest == body + rest;
    }
  }

  /** A row of fields joined by commas is read back as the texts, control bytes replaced by question marks. */
  lemma {:induction false} RowReadsBack(items: seq<Item>)
    requires |items| > 0 && Valid(items)
    ensures ReadRecord(Row(items)) == Some(MaskedAll(items))
  {
    hide Field, ReadField, Masked;
    var head := Field(items[0].empty, items[0].bytes);
    assert items[0] in items;
    if |items| == 1 {
      FieldReadsBack(items[0], []);
      assert head + [] == head;
      assert MaskedAll(items) == [Masked(items[0].bytes)];
    } else {
      var rest := [COMMA] + Row(items[1..]);
      FieldReadsBack(items[0], rest);
      assert head + rest == Row(items) && rest[1..] == Row(items[1..]);
      RowReadsBack(items[1..]);
      assert MaskedAll(items) == [Masked(items[0].bytes)] + MaskedAll(items[1..]);
    }
  }

  /** Nothing but the comma between two fields can end a field, and no control byte survives. */
  lemma {:induction false} NoControlBytes(u: seq<bv8>, b: bv8)
    requires b in FlatMap(CsvByte, u)
    ensures b >= 0x20
  {
    ByteForms(u[0]);
    if b !in CsvByte(u[0]) { NoControlBytes(u[1..], b); }
  }

  // ---------------------------------------------------------------- truncation

  /** The field of the first `k` characters. */
  function FieldOf(cs: seq<Char8>, empty: bool, k: nat): seq<bv8>
    requires k <= |cs|
  {
    Field(empty, FlatMap(Bytes, cs[..k]))
  }

  /**
   With CHARUTIL_FLAG_TRUNCATE a prefix's field fits with its NUL exactly when the prefix is no longer than the
   one taken, although a field pays for its quotes only once.
   */
  lemma TruncationKeepsLongestField(t: seq<bv8>, lim: nat, cap: nat, flags: bv32, k: nat)
    requires Has(flags, FLAG_TRUNCATE) && !Has(flags, FLAG_ALLOC) && |t| > 0
    requires var p := Parse8(t, lim); !p.stop.Bad? && k <= |p.chars| && cap > 0
    ensures var cs := Parse8(t, lim).chars;
            var m := FitCsv(cs, 0, false, cap);
            && CsvText(t, false, lim, cap, flags) == Some(FieldOf(cs, false, m))
            && (|FieldOf(cs, false, k)| + 1 <= cap <==> k <= m)
  {
    hide FitCsv, Size, Field, Parse8;
    Parse8Consumes(t, lim);
    var cs := Parse8(t, lim).chars;
    var m := FitCsv(cs, 0, false, cap);
    assert cs[..|cs|] == cs;
    FitCsvIsLongestPrefix(cs, 0, false, cap, k);
    assert AllFramed8(cs[..k]);
    SizeIsField(cs[..k], false);
    assert CsvText(t, false, lim, cap, flags) == Some(FieldOf(cs, false, m));
  }
}
