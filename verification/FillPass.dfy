/**
 The backward pass all converters end with. Both cursors are DWORDs: the read cursor stands on the last
 unit not yet read, the write cursor on the last cell not yet written, and both wrap below zero together.
 */
module FillPass {
  import opened Transcode

  /** `k` of the characters `cs` are still to be converted; `src` still starts with them. */
  ghost predicate Owed<C, S, T>(units: C -> seq<S>, f: C -> seq<T>, src: seq<S>, cs: seq<C>, k: nat, i: dword, j: dword,
                                buf: seq<T>, before: seq<T>, end: nat)
  {
    && k <= |cs|
    && var a, p := |FlatMap(units, cs[..k])|, |FlatMap(f, cs[..k])|;
       && a <= CONVERT_MAXSIZE && (k == 0 <==> a == 0) && i == Minus(a, 1)
       && p < 0x1_0000_0000 && j == Minus(p, 1)
       && FlatMap(units, cs[..k]) <= src
       && Filling(buf, before, p, FlatMap(f, cs[k..]), end)
  }

  lemma OwedStarts<C, S, T>(units: C -> seq<S>, f: C -> seq<T>, src: seq<S>, cs: seq<C>, cbIn: dword, cbOut: dword,
                            buf: seq<T>)
    requires forall c :: c in cs ==> |units(c)| >= 1
    requires FlatMap(units, cs) <= src && cbIn == |FlatMap(units, cs)| + 1 <= CONVERT_MAXSIZE + 1
    requires cbOut == |FlatMap(f, cs)| + 1 <= |buf|
    ensures Owed(units, f, src, cs, |cs|, Minus(cbIn, 2), Minus(cbOut, 2), buf, buf, cbOut - 1)
  {
    assert cs[..|cs|] == cs && cs[|cs|..] == [];
    FlatMapGrows(units, cs);
    FillingStarts(buf, cbOut - 1);
  }

  lemma OwedEnds<C, S, T>(units: C -> seq<S>, f: C -> seq<T>, src: seq<S>, cs: seq<C>, k: nat, i: dword, j: dword,
                          buf: seq<T>, before: seq<T>, end: nat, zero: T)
    requires Owed(units, f, src, cs, k, i, j, buf, before, end)
    ensures i < 0x7fffffff <==> k > 0
    ensures k == 0 ==>
              && |FlatMap(f, cs)| == end < |buf| == |before| && buf[end] == before[end]
              && buf[end := zero][..end + 1] == FlatMap(f, cs) + [zero]
              && buf[end := zero][end + 1..] == before[end + 1..]
  {
    if k == 0 {
      assert cs[..0] == [] && cs[0..] == cs;
      FillingDone(buf, before, FlatMap(f, cs), end, zero);
      assert buf[end..][0] == before[end..][0];
    }
  }

  /** What the cursors stand on, and the state once the character before them has been stored at `p`. */
  lemma NextChar<C, S, T>(units: C -> seq<S>, f: C -> seq<T>, src: seq<S>, cs: seq<C>, k: nat, i: dword, j: dword,
                          buf: seq<T>, before: seq<T>, end: nat)
    returns (c: C, a: nat, p: nat)
    requires forall c :: c in cs ==> |units(c)| >= 1
    requires 0 < k && Owed(units, f, src, cs, k, i, j, buf, before, end)
    ensures c == cs[k - 1] && a == |FlatMap(units, cs[..k - 1])| && p == |FlatMap(f, cs[..k - 1])|
    ensures i == a + |units(c)| - 1 < |src| && src[a..i + 1] == units(c) && i < CONVERT_MAXSIZE
    ensures p + |f(c)| <= 0xffff_ffff && p + |f(c)| <= |buf| && j == Minus(p + |f(c)|, 1)
    ensures Owed(units, f, src, cs, k - 1, Minus(i, |units(c)|), Minus(j, |f(c)|), Patched(buf, p, f(c)), before, end)
  {
    c, a, p := cs[k - 1], |FlatMap(units, cs[..k - 1])|, |FlatMap(f, cs[..k - 1])|;
    FlatMapAt(units, cs, k - 1);
    FlatMapAt(f, cs, k - 1);
    assert c in cs;
    FlatMapGrows(units, cs[..k - 1]);
    assert src[..i + 1] == FlatMap(units, cs[..k - 1]) + units(c);
    assert src[..i + 1][..a] == src[..a];
    FillingStep(buf, before, p, f(c), FlatMap(f, cs[k..]), end, Patched(buf, p, f(c)));
    assert k == 1 ==> cs[..k - 1] == [];
  }

  /** A fill in place may overwrite its source behind the read cursor. */
  lemma SameFront<C, S, T>(units: C -> seq<S>, f: C -> seq<T>, src: seq<S>, src': seq<S>, cs: seq<C>, k: nat, i: dword,
                           j: dword, buf: seq<T>, before: seq<T>, end: nat, a: nat)
    requires Owed(units, f, src, cs, k, i, j, buf, before, end)
    requires k <= |cs| && a == |FlatMap(units, cs[..k])| <= |src'| && src'[..a] == src[..a]
    ensures Owed(units, f, src', cs, k, i, j, buf, before, end)
  {
  }

  lemma PatchShift<T>(buf: seq<T>, d: nat, p: nat, e: seq<T>)
    requires d + p + |e| <= |buf|
    ensures |Patched(buf, d + p, e)| == |buf|
    ensures Patched(buf, d + p, e)[d..] == Patched(buf[d..], p, e) && Patched(buf, d + p, e)[..d] == buf[..d]
  {
  }

  /** The same fill behind `gap` cells that it does not reach. */
  ghost predicate OwedAt<C, S, T>(units: C -> seq<S>, f: C -> seq<T>, src: seq<S>, cs: seq<C>, k: nat, i: dword,
                                  j: dword, buf: seq<T>, before: seq<T>, end: nat, gap: nat)
  {
    && k <= |cs| && gap <= end && gap <= |buf| == |before| && buf[..gap] == before[..gap]
    && var p := |FlatMap(f, cs[..k])|;
       && p + gap < 0x1_0000_0000 && j == Minus(p + gap, 1)
       && Owed(units, f, src, cs, k, i, Minus(p, 1), buf[gap..], before[gap..], end - gap)
  }

  lemma OwedAtStarts<C, S, T>(units: C -> seq<S>, f: C -> seq<T>, src: seq<S>, cs: seq<C>, cbIn: dword, cbOut: dword,
                              buf: seq<T>, gap: nat)
    requires forall c :: c in cs ==> |units(c)| >= 1
    requires FlatMap(units, cs) <= src && cbIn == |FlatMap(units, cs)| + 1 <= CONVERT_MAXSIZE + 1
    requires cbOut == gap + |FlatMap(f, cs)| + 1 <= |buf|
    ensures OwedAt(units, f, src, cs, |cs|, Minus(cbIn, 2), Minus(cbOut, 2), buf, buf, cbOut - 1, gap)
  {
    hide Owed, FlatMap;
    assert cs[..|cs|] == cs;
    OwedStarts(units, f, src, cs, cbIn, cbOut - gap, buf[gap..]);
  }

  lemma OwedAtEnds<C, S, T>(units: C -> seq<S>, f: C -> seq<T>, src: seq<S>, cs: seq<C>, k: nat, i: dword, j: dword,
                            buf: seq<T>, before: seq<T>, end: nat, gap: nat)
    requires OwedAt(units, f, src, cs, k, i, j, buf, before, end, gap)
    ensures i < 0x7fffffff <==> k > 0
    ensures k == 0 ==>
              && gap + |FlatMap(f, cs)| == end < |buf| == |before| && buf[..gap] == before[..gap]
              && buf[gap..end] == FlatMap(f, cs) && buf[end..] == before[end..]
  {
    hide Owed, FlatMap;
    var view, p := buf[gap..], |FlatMap(f, cs[..k])|;
    if k == 0 {
      EndsInView(units, f, src, cs, i, Minus(p, 1), view, before[gap..], end - gap);
      assert buf[gap..end] == view[..end - gap] && buf[end..] == view[end - gap..];
      assert before[gap..][end - gap..] == before[end..];
    } else {
      CursorTells(units, f, src, cs, k, i, Minus(p, 1), view, before[gap..], end - gap);
    }
  }

  lemma CursorTells<C, S, T>(units: C -> seq<S>, f: C -> seq<T>, src: seq<S>, cs: seq<C>, k: nat, i: dword, j: dword,
                             buf: seq<T>, before: seq<T>, end: nat)
    requires Owed(units, f, src, cs, k, i, j, buf, before, end)
    ensures i < 0x7fffffff <==> k > 0
  {
  }

  lemma EndsInView<C, S, T>(units: C -> seq<S>, f: C -> seq<T>, src: seq<S>, cs: seq<C>, i: dword, j: dword,
                            buf: seq<T>, before: seq<T>, end: nat)
    requires Owed(units, f, src, cs, 0, i, j, buf, before, end)
    ensures i >= 0x7fffffff && |FlatMap(f, cs)| == end < |buf| == |before|
    ensures buf[..end] == FlatMap(f, cs) && buf[end..] == before[end..]
  {
    assert cs[..0] == [] && cs[0..] == cs;
  }

  lemma OwedAtStep<C, S, T>(units: C -> seq<S>, f: C -> seq<T>, src: seq<S>, cs: seq<C>, k: nat, i: dword, j: dword,
                            buf: seq<T>, before: seq<T>, end: nat, gap: nat)
    returns (c: C, a: nat, at: nat)
    requires forall c :: c in cs ==> |units(c)| >= 1
    requires 0 < k && OwedAt(units, f, src, cs, k, i, j, buf, before, end, gap)
    ensures c == cs[k - 1] && a == |FlatMap(units, cs[..k - 1])|
    ensures i == a + |units(c)| - 1 < |src| && src[a..i + 1] == units(c) && i < CONVERT_MAXSIZE
    ensures at + |f(c)| <= 0xffff_ffff && at + |f(c)| <= |buf| && j == Minus(at + |f(c)|, 1)
    ensures OwedAt(units, f, src, cs, k - 1, Minus(i, |units(c)|), Minus(j, |f(c)|), Patched(buf, at, f(c)), before,
                   end, gap)
  {
    hide Owed, FlatMap, Patched;
    var p, p' := |FlatMap(f, cs[..k])|, 0;
    c, a, p' := NextChar(units, f, src, cs, k, i, Minus(p, 1), buf[gap..], before[gap..], end - gap);
    FlatMapAt(f, cs, k - 1);
    at := gap + p';
    PatchShift(buf, gap, p', f(c));
    assert Patched(buf, at, f(c))[..gap] == before[..gap];
  }
}
