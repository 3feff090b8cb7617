/** Listing and opening of the files of m_vmemd/m_vmemd.c: one per VAD, one per PTE range outside the VADs. */
module VMemD {
  import opened Transcode
  import opened QFind

  type byte = x: int | 0 <= x < 0x100

  const QWORD_SIZE: int := 0x1_0000_0000_0000_0000

  type qword = x: int | 0 <= x < 0x1_0000_0000_0000_0000

  /** `vaEnd` is the last byte of the range. */
  datatype Vad = Vad(vaStart: qword, vaEnd: qword, text: seq<byte>)
  datatype Pte = Pte(vaBase: qword, cPages: qword, text: seq<byte>)
  datatype Model = X64 | X86 | Unknown
  datatype File = File(name: seq<byte>, size: qword)

  // ---------------------------------------------------------------- file names

  const BACKSLASH: byte := 92
  const DOT: byte := 46
  const DASH: byte := 45
  const UNDERSCORE: byte := 95

  /** The ASCII bytes that UTIL_ASCIIFILENAME_ALLOW keeps. */
  predicate Allowed(b: byte) { 32 <= b < 128 && b !in {34, 47, 58, 60, 62, 63, 92, 124} }

  function Cleaned(b: byte): byte { if b < 128 && !Allowed(b) then UNDERSCORE else b }

  /** What follows the last backslash. */
  function Segment(t: seq<byte>): (r: seq<byte>)
    ensures |r| <= |t|
  {
    if |t| == 0 || t[|t| - 1] == BACKSLASH then [] else Segment(t[..|t| - 1]) + [t[|t| - 1]]
  }

  /** Its last 62 bytes. */
  function Kept(t: seq<byte>): (r: seq<byte>)
    ensures |r| <= 62
  {
    var s := Segment(t);
    if |s| > 62 then s[|s| - 62..] else s
  }

  function Shown(t: seq<byte>): (r: seq<byte>)
    ensures |r| <= 62
  {
    var s := Kept(t);
    seq(|s|, k requires 0 <= k < |s| => Cleaned(s[k]))
  }

  /** What is shown of a text: at most 62 bytes from its end, none of them from before the last backslash. */
  lemma ShownIsTail(t: seq<byte>)
    ensures var n := |Shown(t)|;
            && n <= 62 && n <= |t| && 92 !in t[|t| - n..]
            && (n == 62 || n == |t| || t[|t| - n - 1] == 92)
            && forall k :: 0 <= k < n ==>
                 var b := t[|t| - n + k];
                 Shown(t)[k] == if b < 32 || b in {34, 47, 58, 60, 62, 63, 92, 124} then 95 else b
  {
    SegmentIsTail(t);
  }

  lemma {:induction false} SegmentIsTail(t: seq<byte>)
    ensures var s := Segment(t);
            |s| <= |t| && s == t[|t| - |s|..] && 92 !in s && (|s| == |t| || t[|t| - |s| - 1] == 92)
  {
    if |t| > 0 && t[|t| - 1] != BACKSLASH {
      var front := t[..|t| - 1];
      SegmentIsTail(front);
      var s := Segment(front);
      assert t == front + [t[|t| - 1]];
      assert front[|front| - |s|..] + [t[|t| - 1]] == t[|front| - |s|..];
    }
  }

  lemma KeptGrows(t: seq<byte>, n: nat)
    requires n < |t|
    ensures t[n] == BACKSLASH ==> Segment(t[..n + 1]) == []
    ensures t[n] != BACKSLASH ==>
              && Segment(t[..n + 1]) == Segment(t[..n]) + [t[n]]
              && Kept(t[..n + 1]) ==
                   if |Segment(t[..n])| < 62 then Kept(t[..n]) + [t[n]] else Kept(t[..n])[1..] + [t[n]]
  {
    assert t[..n + 1][..n] == t[..n];
  }

  /** Slides a window of at most 62 bytes over the text, restarted by every backslash. */
  method Window(usz: array<byte>) returns (start: nat, i: nat)
    requires Strnlen(usz[..], 0, usz.Length) < usz.Length
    ensures var m := Strnlen(usz[..], 0, usz.Length);
            start + i == m && usz[start..m] == Kept(usz[..m])
  {
    hide Segment, Kept;
    ghost var m := Strnlen(usz[..], 0, usz.Length);
    ghost var t := usz[..m];
    start, i := 0, 0;
    NothingKept();
    while usz[start + i] != 0
      invariant i <= 62 && start + i <= m && t[start..start + i] == Kept(t[..start + i])
      invariant if i < 62 then |Segment(t[..start + i])| == i else |Segment(t[..start + i])| >= 62
      decreases m - start - i
    {
      ghost var n := start + i;
      assert n < m && t[n] == usz[n];
      KeptGrows(t, n);
      NothingKept();
      if usz[start + i] == BACKSLASH {
        NoSegment(t[..n + 1]);
        start := start + (i + 1);
        i := 0;
        continue;
      }
      if i == 62 {
        start := start + 1;
        assert t[start..start + i] == t[n - 62..n][1..] + [t[n]];
        continue;
      }
      assert t[start..n + 1] == t[start..n] + [t[n]];
      i := i + 1;
    }
    assert t[..m] == t;
  }

  method FileNameU(uszOut: array<byte>, usz: array<byte>)
    requires uszOut != usz && uszOut.Length == 64 && Strnlen(usz[..], 0, usz.Length) < usz.Length
    modifies uszOut
    ensures var name := Shown(usz[..Strnlen(usz[..], 0, usz.Length)]);
            uszOut[..|name| + 1] == name + [0]
  {
    hide Kept, Allowed;
    ghost var m := Strnlen(usz[..], 0, usz.Length);
    var start, n := Window(usz);
    ghost var kept, name := usz[start..m], Shown(usz[..m]);
    var i := 0;
    while usz[start + i] != 0
      invariant i <= |name| == m - start && uszOut[..i] == name[..i]
      decreases |name| - i
    {
      var ch := usz[start + i];
      assert ch == kept[i];
      uszOut[i] := Cleaned(ch);
      i := i + 1;
    }
    uszOut[i] := 0;
  }

  lemma NothingKept()
    ensures Segment([]) == [] && Kept([]) == []
  {
  }

  lemma NoSegment(t: seq<byte>)
    requires Segment(t) == []
    ensures Kept(t) == []
  {
  }

  // ---------------------------------------------------------------- numbers

  function Digit(v: nat): byte
    requires v < 16
  {
    if v < 10 then 48 + v else 87 + v
  }

  predicate IsHex(b: byte) { 48 <= b <= 57 || 97 <= b <= 102 || 65 <= b <= 70 }

  function Value(b: byte): nat
    requires IsHex(b)
  {
    if b <= 57 then b - 48 else if b >= 97 then b - 87 else b - 55
  }

  /** %0nx, for a value of at most n digits. */
  function Hex(v: nat, n: nat): (s: seq<byte>)
    ensures |s| == n && forall k :: 0 <= k < n ==> IsHex(s[k]) && s[k] != DOT
  {
    if n == 0 then [] else Hex(v / 16, n - 1) + [Digit(v % 16)]
  }

  function HexValue(s: seq<byte>): nat
    requires forall b :: b in s ==> IsHex(b)
  {
    if |s| == 0 then 0 else 16 * HexValue(s[..|s| - 1]) + Value(s[|s| - 1])
  }

  function Power16(n: nat): nat { if n == 0 then 1 else 16 * Power16(n - 1) }

  lemma {:induction false} HexReadsBack(v: nat, n: nat)
    requires v < Power16(n)
    ensures HexValue(Hex(v, n)) == v
  {
    if n > 0 {
      HexReadsBack(v / 16, n - 1);
      var s := Hex(v, n);
      assert s[..n - 1] == Hex(v / 16, n - 1);
    }
  }

  /** The hexadecimal digits a text starts with. */
  function Digits(s: seq<byte>): (r: seq<byte>)
    ensures forall b :: b in r ==> IsHex(b)
  {
    if |s| == 0 || !IsHex(s[0]) then [] else [s[0]] + Digits(s[1..])
  }

  lemma {:induction false} DigitsOf(h: seq<byte>, rest: seq<byte>)
    requires (forall k :: 0 <= k < |h| ==> IsHex(h[k])) && (|rest| > 0 ==> !IsHex(rest[0]))
    ensures Digits(h + rest) == h
  {
    if |h| > 0 {
      assert (h + rest)[1..] == h[1..] + rest;
      DigitsOf(h[1..], rest);
    } else {
      assert h + rest == rest;
    }
  }

  // ---------------------------------------------------------------- parsing a name

  const VMEM: seq<byte> := [46, 118, 109, 101, 109]
  const VVMEM: seq<byte> := [46, 118, 118, 109, 101, 109]

  /** strstr */
  predicate Contains(s: seq<byte>, pattern: seq<byte>) { exists i | 0 <= i <= |s| :: OccursAt(s, pattern, i) }

  predicate OccursAt(s: seq<byte>, pattern: seq<byte>, i: int) {
    0 <= i <= |s| - |pattern| && s[i..i + |pattern|] == pattern
  }

  datatype Wanted = Wanted(va: qword, isVad: bool)

  /** strtoull saturates. */
  function Saturated(v: nat): qword { if v >= QWORD_SIZE then QWORD_SIZE - 1 else v }

  function BaseAndType(name: seq<byte>): Option<Wanted> {
    if |name| < 15 || name[0] != 48 || name[1] != 120 then None
    else Some(Wanted(Saturated(HexValue(Digits(name[2..]))), Contains(name, VVMEM)))
  }

  // ---------------------------------------------------------------- making a name

  /** The name for a base address; a memory model without a name format leaves the zeroed buffer alone. */
  function Name(model: Model, va: qword, info: seq<byte>, suffix: seq<byte>): seq<byte> {
    if model.Unknown? then []
    else [48, 120] + Number(model, va) + Tail(info, suffix)
  }

  function Number(model: Model, va: qword): seq<byte> {
    if model.X64? then Hex(va, 16) else Hex(va % 0x1_0000_0000, 8)
  }

  function Tail(info: seq<byte>, suffix: seq<byte>): seq<byte> {
    (if info == [] then [] else [DASH]) + info + suffix
  }

  function VadFile(model: Model, e: Vad): File {
    File(Name(model, e.vaStart, Shown(e.text), VVMEM), (e.vaEnd + 1 - e.vaStart) % QWORD_SIZE)
  }

  function PteFile(model: Model, e: Pte): File {
    File(Name(model, e.vaBase, Shown(e.text), VMEM), e.cPages * 0x1000 % QWORD_SIZE)
  }

  /** The size of a file is the number of bytes of its range; the whole address space has size 0. */
  lemma FileSizes(model: Model, v: Vad, p: Pte)
    ensures v.vaStart <= v.vaEnd && v.vaEnd - v.vaStart < 0xffff_ffff_ffff_ffff ==>
              v.vaStart + VadFile(model, v).size == v.vaEnd + 1
    ensures v.vaStart == 0 && v.vaEnd == 0xffff_ffff_ffff_ffff ==> VadFile(model, v).size == 0
    ensures p.cPages < 0x10_0000_0000_0000 ==> PteFile(model, p).size == 4096 * p.cPages
  {
    hide Name, Shown;
  }

  /**
   A name is 0x, the address in lower-case hexadecimal digits, a dash and the text if there is one, and the suffix.
   */
  lemma NameParts(model: Model, va: qword, info: seq<byte>, suffix: seq<byte>)
    requires !model.Unknown?
    ensures var name, n := Name(model, va, info, suffix), if model.X64? then 16 else 8;
            && |name| == 2 + n + (if info == [] then 0 else 1 + |info|) + |suffix|
            && name[..2] == [48, 120]
            && (forall k :: 2 <= k < 2 + n ==> 48 <= name[k] <= 57 || 97 <= name[k] <= 102)
            && name[2 + n..] == (if info == [] then [] else [45] + info) + suffix
  {
    hide Hex;
    var h := Number(model, va);
    LowerCase(if model.X64? then va else va % 0x1_0000_0000, if model.X64? then 16 else 8);
    assert Name(model, va, info, suffix) == [48, 120] + h + Tail(info, suffix);
  }

  lemma {:induction false} LowerCase(v: nat, n: nat)
    ensures forall k :: 0 <= k < n ==> 48 <= Hex(v, n)[k] <= 57 || 97 <= Hex(v, n)[k] <= 102
  {
    if n > 0 { LowerCase(v / 16, n - 1); }
  }

  /** The address as the name can tell it. */
  function Told(model: Model, va: qword): qword { if model.X64? then va else va % 0x1_0000_0000 }

  lemma Powers()
    ensures Power16(8) == 0x1_0000_0000 && Power16(16) == QWORD_SIZE
  {
    assert Power16(4) == 0x1_0000;
    assert Power16(8) == 0x1_0000_0000;
    assert Power16(12) == 0x1_0000_0000_0000;
  }

  lemma NumberReadsBack(model: Model, va: qword, info: seq<byte>, suffix: seq<byte>)
    requires !model.Unknown? && |suffix| >= 5 && suffix[0] == DOT
    ensures var name := Name(model, va, info, suffix);
            && |name| >= 15 && name[0] == 48 && name[1] == 120
            && HexValue(Digits(name[2..])) == Told(model, va)
  {
    hide Hex, Power16, Digits, HexValue;
    var h, tail := Number(model, va), Tail(info, suffix);
    Powers();
    DigitsOf(h, tail);
    HexReadsBack(Told(model, va), if model.X64? then 16 else 8);
    assert Name(model, va, info, suffix)[2..] == h + tail;
  }

  /** Before and after the text part, a name does not contain ".vvmem" unless that is its suffix. */
  lemma SuffixDecides(head: seq<byte>, info: seq<byte>)
    requires forall k :: 0 <= k < |head| ==> head[k] != DOT
    ensures Contains(head + info + VVMEM, VVMEM)
    ensures Contains(head + info + VMEM, VVMEM) <==> Contains(info, VVMEM)
  {
    assert OccursAt(head + info + VVMEM, VVMEM, |head| + |info|);
    if i :| OccursAt(info, VVMEM, i) {
      assert OccursAt(head + info + VMEM, VVMEM, |head| + i);
    }
    if i :| OccursAt(head + info + VMEM, VVMEM, i) {
      InsideInfo(head, info, i);
    }
  }

  lemma InsideInfo(head: seq<byte>, info: seq<byte>, i: int)
    requires (forall k :: 0 <= k < |head| ==> head[k] != DOT) && OccursAt(head + info + VMEM, VVMEM, i)
    ensures OccursAt(info, VVMEM, i - |head|)
  {
    var n, s := |head| + |info|, head + info + VMEM;
    var part := s[i..i + 6];
    assert part[0] == s[i] && s[n] == VMEM[0];
    assert s[i + 1] == part[1] && s[i + 2] == part[2] && s[i + 3] == part[3] && s[i + 4] == part[4]
           && s[i + 5] == part[5];
    assert info[i - |head|..i - |head| + 6] == part;
  }

  lemma NameContains(model: Model, va: qword, info: seq<byte>)
    requires !model.Unknown?
    ensures Contains(Name(model, va, info, VVMEM), VVMEM)
    ensures Contains(Name(model, va, info, VMEM), VVMEM) <==> Contains(info, VVMEM)
  {
    hide Contains;
    var head := [48, 120] + Number(model, va) + if info == [] then [] else [DASH];
    assert Name(model, va, info, VVMEM) == head + info + VVMEM;
    assert Name(model, va, info, VMEM) == head + info + VMEM;
    SuffixDecides(head, info);
  }

  /** A VAD's name leads back to the VAD exactly when its address can be told; nothing in its text can prevent that. */
  lemma VadNameReadsBack(model: Model, e: Vad)
    requires !model.Unknown?
    ensures BaseAndType(VadFile(model, e).name) == Some(Wanted(e.vaStart, true)) <==>
            model.X64? || e.vaStart < 0x1_0000_0000
  {
    hide Contains, Name, Digits, HexValue, Shown;
    NumberReadsBack(model, e.vaStart, Shown(e.text), VVMEM);
    NameContains(model, e.vaStart, Shown(e.text));
  }

  /** A PTE range's name does so exactly when, besides, its text does not pose as a VAD's suffix. */
  lemma PteNameReadsBack(model: Model, e: Pte)
    requires !model.Unknown?
    ensures BaseAndType(PteFile(model, e).name) == Some(Wanted(e.vaBase, false)) <==>
            (model.X64? || e.vaBase < 0x1_0000_0000) && !Contains(Shown(e.text), VVMEM)
  {
    hide Contains, Name, Digits, HexValue, Shown;
    NumberReadsBack(model, e.vaBase, Shown(e.text), VMEM);
    NameContains(model, e.vaBase, Shown(e.text));
  }

  // ---------------------------------------------------------------- the listing

  predicate SortedVads(vads: seq<Vad>) {
    && (forall i :: 0 <= i < |vads| ==> vads[i].vaStart <= vads[i].vaEnd)
    && forall i, j :: 0 <= i < j < |vads| ==> vads[i].vaEnd < vads[j].vaStart
  }

  predicate SortedPtes(ptes: seq<Pte>) { forall i, j :: 0 <= i < j < |ptes| ==> ptes[i].vaBase < ptes[j].vaBase }

  predicate Covers(v: Vad, va: qword) { v.vaStart <= va <= v.vaEnd }

  predicate Covered(vads: seq<Vad>, va: qword) { exists v :: v in vads && Covers(v, va) }

  function VadFiles(model: Model, vads: seq<Vad>): seq<File> {
    if |vads| == 0 then [] else VadFiles(model, vads[..|vads| - 1]) + [VadFile(model, vads[|vads| - 1])]
  }

  /** The files of the PTE ranges whose base no VAD contains. */
  function PteFiles(model: Model, ptes: seq<Pte>, vads: seq<Vad>): seq<File> {
    if |ptes| == 0 then []
    else
      var e := ptes[|ptes| - 1];
      PteFiles(model, ptes[..|ptes| - 1], vads) + if Covered(vads, e.vaBase) then [] else [PteFile(model, e)]
  }

  lemma VadFilesGrow(model: Model, vads: seq<Vad>, n: nat)
    requires n < |vads|
    ensures VadFiles(model, vads[..n + 1]) == VadFiles(model, vads[..n]) + [VadFile(model, vads[n])]
  {
    assert vads[..n + 1][..n] == vads[..n];
  }

  lemma PteFilesGrow(model: Model, ptes: seq<Pte>, vads: seq<Vad>, n: nat)
    requires n < |ptes|
    ensures PteFiles(model, ptes[..n + 1], vads) ==
            PteFiles(model, ptes[..n], vads) + if Covered(vads, ptes[n].vaBase) then [] else [PteFile(model, ptes[n])]
  {
    assert ptes[..n + 1][..n] == ptes[..n];
  }

  /** With the pointer past all VADs that end below `va`, the VAD under it decides whether any contains `va`. */
  lemma PointerDecides(vads: seq<Vad>, i: nat, va: qword)
    requires SortedVads(vads) && i <= |vads|
    requires (forall j :: 0 <= j < i ==> vads[j].vaEnd < va) && (i < |vads| ==> va <= vads[i].vaEnd)
    ensures Covered(vads, va) <==> i < |vads| && Covers(vads[i], va)
  {
    if Covered(vads, va) {
      var v :| v in vads && Covers(v, va);
      var j :| 0 <= j < |vads| && vads[j] == v;
      assert j == i;
    }
  }

  /** What is listed: a file for every VAD, and for every PTE range that does not start inside one. */
  lemma ListedIff(model: Model, ptes: seq<Pte>, vads: seq<Vad>, f: File)
    ensures f in VadFiles(model, vads) <==> exists v :: v in vads && f == VadFile(model, v)
    ensures f in PteFiles(model, ptes, vads) <==>
            exists e :: e in ptes && f == PteFile(model, e) && forall v :: v in vads ==>
              e.vaBase < v.vaStart || v.vaEnd < e.vaBase
  {
    VadListedIff(model, vads, f);
    PteListedIff(model, ptes, vads, f);
  }

  lemma {:induction false} VadListedIff(model: Model, vads: seq<Vad>, f: File)
    ensures f in VadFiles(model, vads) <==> exists v :: v in vads && f == VadFile(model, v)
  {
    hide VadFile;
    if |vads| > 0 {
      var n := |vads| - 1;
      VadListedIff(model, vads[..n], f);
      VadFilesGrow(model, vads, n);
      assert vads[..n + 1] == vads && vads == vads[..n] + [vads[n]];
    }
  }

  lemma {:induction false} PteListedIff(model: Model, ptes: seq<Pte>, vads: seq<Vad>, f: File)
    ensures f in PteFiles(model, ptes, vads) <==>
            exists e :: e in ptes && f == PteFile(model, e) && forall v :: v in vads ==>
              e.vaBase < v.vaStart || v.vaEnd < e.vaBase
  {
    hide PteFile;
    if |ptes| > 0 {
      var n := |ptes| - 1;
      PteListedIff(model, ptes[..n], vads, f);
      PteFilesGrow(model, ptes, vads, n);
      assert ptes[..n + 1] == ptes && ptes == ptes[..n] + [ptes[n]];
    }
  }

  /** The entries of a map; it is null when the process has none. */
  function Entries<E>(map_: array?<E>): seq<E>
    reads map_
  {
    if map_ == null then [] else map_[..]
  }

  /** One forward walk over both maps. Nothing is listed without a PTE map. */
  method List(model: Model, pteMap: array?<Pte>, vadMap: array?<Vad>) returns (files: seq<File>)
    requires SortedPtes(Entries(pteMap)) && SortedVads(Entries(vadMap))
    ensures var vads := Entries(vadMap);
            files == if pteMap == null then [] else VadFiles(model, vads) + PteFiles(model, Entries(pteMap), vads)
  {
    hide VadFile, PteFile, VadFiles, PteFiles, Covered, Covers;
    files := [];
    if pteMap == null { return; }
    ghost var vads := Entries(vadMap);
    NoFiles(model, vads);
    var iVad := 0;
    while vadMap != null && iVad < vadMap.Length
      invariant iVad <= |vads| && files == VadFiles(model, vads[..iVad])
      decreases |vads| - iVad
    {
      VadFilesGrow(model, vads, iVad);
      files := files + [VadFile(model, vadMap[iVad])];
      iVad := iVad + 1;
    }
    assert vads[..iVad] == vads;
    ghost var first, ptes := files, Entries(pteMap);
    var iPte := 0;
    iVad := 0;
    while iPte < pteMap.Length
      invariant iPte <= |ptes| && iVad <= |vads| && files == first + PteFiles(model, ptes[..iPte], vads)
      invariant iPte < |ptes| ==> forall j :: 0 <= j < iVad ==> vads[j].vaEnd < ptes[iPte].vaBase
    {
      var pte := pteMap[iPte];
      PteFilesGrow(model, ptes, vads, iPte);
      assert pte == ptes[iPte];
      iPte := iPte + 1;
      var skip := false;
      if vadMap != null {
        while iVad < vadMap.Length && vadMap[iVad].vaEnd < pte.vaBase
          invariant iVad <= |vads| && forall j :: 0 <= j < iVad ==> vads[j].vaEnd < pte.vaBase
        {
          iVad := iVad + 1;
        }
        skip := iVad < vadMap.Length && Covers(vadMap[iVad], pte.vaBase);
      }
      PointerDecides(vads, iVad, pte.vaBase);
      if skip { continue; }
      files := files + [PteFile(model, pte)];
    }
    assert ptes[..iPte] == ptes;
  }

  lemma NoFiles(model: Model, vads: seq<Vad>)
    ensures VadFiles(model, []) == [] && PteFiles(model, [], vads) == []
  {
  }

  // ---------------------------------------------------------------- opening

  function CmpVad(va: qword, e: Vad): int { if e.vaStart > va then -1 else if e.vaStart < va then 1 else 0 }
  function CmpPte(va: qword, e: Pte): int { if e.vaBase > va then -1 else if e.vaBase < va then 1 else 0 }

  datatype Opened = NotFound | OpenedVad(v: int) | OpenedPte(p: int)

  /** An entry with the wanted address, if the map the name asks for has one. */
  predicate Answers(r: Opened, name: seq<byte>, ptes: seq<Pte>, vads: seq<Vad>) {
    match BaseAndType(name)
    case None => r == NotFound
    case Some(w) =>
      if w.isVad then
        if r.OpenedVad? then 0 <= r.v < |vads| && vads[r.v].vaStart == w.va
        else r == NotFound && forall e :: e in vads ==> e.vaStart != w.va
      else
        if r.OpenedPte? then 0 <= r.p < |ptes| && ptes[r.p].vaBase == w.va
        else r == NotFound && forall e :: e in ptes ==> e.vaBase != w.va
  }

  /** `n` entries of `cbEntry` bytes each lie in one map. */
  predicate Searchable(n: nat, cbEntry: dword) {
    1 <= cbEntry <= 0x8000_0000 && n <= 0x8000_0000 && Offset(n, cbEntry) <= 0xffff_ffff
  }

  /** The entry VMemD_Read works on; entries take `cbVad` and `cbPte` bytes, which no map overflows. */
  method Open(name: seq<byte>, pteMap: array?<Pte>, vadMap: array?<Vad>, cbPte: dword, cbVad: dword) returns (r: Opened)
    requires SortedPtes(Entries(pteMap)) && SortedVads(Entries(vadMap))
    requires Searchable(|Entries(pteMap)|, cbPte) && Searchable(|Entries(vadMap)|, cbVad)
    ensures Answers(r, name, Entries(pteMap), Entries(vadMap))
  {
    hide BaseAndType, Offset, Pow2;
    r := NotFound;
    var wanted := BaseAndType(name);
    if wanted.Some? {
      var w := wanted.value;
      if w.isVad {
        if vadMap != null {
          var found, _ := Find(w.va, vadMap, cbVad, CmpVad);
          if found.Entry? { r := OpenedVad(found.i); }
        }
      } else if pteMap != null {
        var found, _ := Find(w.va, pteMap, cbPte, CmpPte);
        if found.Entry? { r := OpenedPte(found.i); }
      }
    }
  }

  /** The file listed for VAD `i` opens VAD `i`, as long as the address fits into the name. */
  lemma VadReopens(model: Model, i: nat, ptes: seq<Pte>, vads: seq<Vad>, r: Opened)
    requires !model.Unknown? && i < |vads| && SortedVads(vads) && Answers(r, VadFile(model, vads[i]).name, ptes, vads)
    requires model.X64? || vads[i].vaStart < 0x1_0000_0000
    ensures r == OpenedVad(i)
  {
    hide VadFile, BaseAndType;
    VadNameReadsBack(model, vads[i]);
    assert vads[i] in vads;
    assert forall k :: 0 <= k < |vads| && vads[k].vaStart == vads[i].vaStart ==> k == i;
  }

  lemma PteReopens(model: Model, i: nat, ptes: seq<Pte>, vads: seq<Vad>, r: Opened)
    requires !model.Unknown? && i < |ptes| && SortedPtes(ptes) && Answers(r, PteFile(model, ptes[i]).name, ptes, vads)
    requires (model.X64? || ptes[i].vaBase < 0x1_0000_0000) && !Contains(Shown(ptes[i].text), VVMEM)
    ensures r == OpenedPte(i)
  {
    hide PteFile, BaseAndType, Contains, Shown;
    PteNameReadsBack(model, ptes[i]);
    assert ptes[i] in ptes;
  }
}
