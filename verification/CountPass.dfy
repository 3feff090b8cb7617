/**
 The forward pass all converters start with: it takes characters off the front of the text, adds up
 what they will become, and stops at the end, at an ill-formed character or when the buffer is full.
 */
module CountPass {
  import opened Transcode
  import opened Unicode

  /** The loop has taken the characters `done`, which cover `t[..at]` and become `size` cells. */
  ghost predicate Counting<C, T>(f: C -> seq<T>, all: Parsed<C>, rest: Parsed<C>, truncate: bool, cap: nat,
                                 done: seq<C>, size: nat)
  {
    && size == |FlatMap(f, done)|
    && all.chars == done + rest.chars && all.stop == rest.stop
    && (truncate ==> |done| <= FitWrapped(f, all.chars, 0, cap))
  }

  lemma CountingStarts<C, S, T>(f: C -> seq<T>, units: C -> seq<S>, all: Parsed<C>, truncate: bool, cap: nat)
    ensures Counting(f, all, all, truncate, cap, [], 0) && FlatMap(units, []) == []
  {
    assert [] + all.chars == all.chars;
  }

  /** Taking one more character, when it fits. */
  lemma Advance<C, T>(f: C -> seq<T>, all: Parsed<C>, rest: Parsed<C>, after: Parsed<C>, truncate: bool, cap: nat,
                      done: seq<C>, size: nat, next: C, need: nat, soft: bool)
    requires Counting(f, all, rest, truncate, cap, done, size)
    requires rest == Parsed([next] + after.chars, after.stop)
    ensures truncate && Over(size + |f(next)|, cap) ==> Accepted(f, all, need, truncate, cap, soft) == Some(done)
    ensures !truncate || !Over(size + |f(next)|, cap) ==>
              Counting(f, all, after, truncate, cap, done + [next], size + |f(next)|)
  {
    assert all.chars == (done + [next]) + after.chars && all.chars[|done|] == next;
    assert all.chars[..|done|] == done;
    CountStep(f, all.chars, done, next, cap);
  }

  /** No character is left to take. */
  lemma Exhausted<C, T>(f: C -> seq<T>, all: Parsed<C>, rest: Parsed<C>, truncate: bool, cap: nat, done: seq<C>,
                        size: nat, need: nat, soft: bool)
    requires Counting(f, all, rest, truncate, cap, done, size) && rest.chars == []
    ensures all == Parsed(done, rest.stop) && size == |FlatMap(f, done)|
    ensures Accepted(f, all, need, truncate, cap, soft) ==
              if all.stop.Bad? && !soft && (need == 0 || !truncate || !Over(size + need, cap)) then None else Some(done)
  {
    assert all.chars == done;
  }

  lemma AcceptedIsPrefix<C, T>(f: C -> seq<T>, p: Parsed<C>, need: nat, truncate: bool, cap: nat, soft: bool)
    ensures var cs := Accepted(f, p, need, truncate, cap, soft); cs.Some? ==>
              |cs.value| <= |p.chars| && cs.value == p.chars[..|cs.value|]
  {
  }

  // What the next units of a text are.

  lemma Step16(t: seq<bv16>, lim: nat, at: nat)
    requires at < |t| <= lim
    ensures var rest := Parse16(t[at..], lim - at);
            if !Surrogate(t[at]) then
              var after := Parse16(t[at + 1..], lim - (at + 1));
              rest == Parsed([Unit(t[at])] + after.chars, after.stop) && t[..at] + Units(Unit(t[at])) == t[..at + 1]
            else if at + 1 >= lim then rest == Parsed([], Cut)
            else if at + 1 >= |t| || !Surrogate(t[at + 1]) then rest == Parsed([], Bad(4))
            else
              var after := Parse16(t[at + 2..], lim - (at + 2));
              && rest == Parsed([Pair(t[at], t[at + 1])] + after.chars, after.stop)
              && t[..at] + Units(Pair(t[at], t[at + 1])) == t[..at + 2]
  {
    var r := t[at..];
    assert r[1..] == t[at + 1..];
    if at + 1 < |t| { assert r[2..] == t[at + 2..] && r[1] == t[at + 1]; }
  }

  lemma NothingToParse(room: nat)
    ensures Parse8([], room) == Parsed([], Complete)
  {
  }

  lemma Step8(t: seq<bv8>, lim: nat, at: nat)
    requires at < |t| <= lim
    ensures var rest, n := Parse8(t[at..], lim - at), Announced(t[at]);
            if n == 0 then rest == Parsed([], Bad(0))
            else if at + n > lim then rest == Parsed([], Cut)
            else if at + n > |t| || !Framed8(CharAt(t[at..], n)) then rest == Parsed([], Bad(n))
            else
              var after := Parse8(t[at + n..], lim - (at + n));
              && rest == Parsed([CharAt(t[at..], n)] + after.chars, after.stop)
              && t[..at] + Bytes(CharAt(t[at..], n)) == t[..at + n]
  {
    hide CharAt, Framed8, Announced, Bytes;
    var r, n := t[at..], Announced(t[at]);
    if 1 <= n <= |r| {
      assert r[n..] == t[at + n..];
      CharAtBytes(r, n);
      assert t[..at + n] == t[..at] + r[..n];
    }
  }

  /** What a count pass over bytes finds at `at`; `need` is the room of the character the parse stops at. */
  lemma LookAt8<T>(f: Char8 -> seq<T>, t: seq<bv8>, lim: nat, truncate: bool, cap: nat,
                   all: Parsed<Char8>, rest: Parsed<Char8>, at: nat, done: seq<Char8>, size: nat, need: nat)
    returns (next: Char8, after: Parsed<Char8>)
    requires at < |t| <= lim && all == Parse8(t, lim) && rest == Parse8(t[at..], lim - at)
    requires Counting(f, all, rest, truncate, cap, done, size) && FlatMap(Bytes, done) == t[..at]
    requires all.stop.Bad? ==> (need == 0 <==> all.stop.announced == 0)
    ensures var n, taken := Announced(t[at]), Accepted(f, all, need, truncate, cap, false);
            if n == 0 then all.stop == Bad(0) && taken == None
            else if at + n > lim then all.stop == Cut && taken == Some(done)
            else if at + n > |t| || !Framed8(CharAt(t[at..], n)) then
              all.stop == Bad(n) && taken == if !truncate || !Over(size + need, cap) then None else Some(done)
            else
              && next == CharAt(t[at..], n) && |Bytes(next)| == n && after == Parse8(t[at + n..], lim - (at + n))
              && FlatMap(Bytes, done + [next]) == t[..at + n]
              && (if truncate && Over(size + |f(next)|, cap) then taken == Some(done)
                  else Counting(f, all, after, truncate, cap, done + [next], size + |f(next)|))
  {
    hide Accepted, Counting, FlatMap, Framed8, Announced, Over, CharAt, Bytes, Parse8;
    Step8(t, lim, at);
    var n := Announced(t[at]);
    if |rest.chars| > 0 {
      next := rest.chars[0];
      after := Parse8(t[at + n..], lim - (at + n));
      TakeNext(f, t, truncate, cap, all, rest, after, at, done, size, next, n, need);
    } else {
      Exhausted(f, all, rest, truncate, cap, done, size, need, false);
      next, after := One(0), rest;
    }
  }

  lemma TakeNext<T>(f: Char8 -> seq<T>, t: seq<bv8>, truncate: bool, cap: nat, all: Parsed<Char8>, rest: Parsed<Char8>,
                    after: Parsed<Char8>, at: nat, done: seq<Char8>, size: nat, next: Char8, n: nat, need: nat)
    requires Counting(f, all, rest, truncate, cap, done, size) && rest == Parsed([next] + after.chars, after.stop)
    requires at + n <= |t| && FlatMap(Bytes, done) == t[..at] && t[..at] + Bytes(next) == t[..at + n]
    ensures |Bytes(next)| == n && FlatMap(Bytes, done + [next]) == t[..at + n]
    ensures if truncate && Over(size + |f(next)|, cap) then
              Accepted(f, all, need, truncate, cap, false) == Some(done)
            else
              Counting(f, all, after, truncate, cap, done + [next], size + |f(next)|)
  {
    hide Accepted, Counting, FlatMap, Over, Bytes;
    Advance(f, all, rest, after, truncate, cap, done, size, next, need, false);
    FlatMapConcat(Bytes, done, [next]);
    FlatMapOne(Bytes, next);
    assert |t[..at] + Bytes(next)| == at + n;
  }

  /** The checks of the tail bytes, as UtoU, UtoW and UtoCSV make them. */
  method TailOk(s: array<bv8>, at: nat, n: nat, ghost lim: nat) returns (ok: bool)
    requires lim <= CONVERT_MAXSIZE && Terminated(s[..], 0, lim) && at < Strnlen(s[..], 0, lim)
    requires n == Announced(s[at]) && 1 <= n && at + n <= lim
    ensures var t := s[..Strnlen(s[..], 0, lim)];
            ok == (at + n <= |t| && Framed8(CharAt(t[at..], n)))
  {
    ghost var t := s[..Strnlen(s[..], 0, lim)];
    ghost var r := t[at..];
    assert |t| == lim || (|t| < s.Length && s[|t|] == 0);
    if n > 1 && !IsTail(s[at + 1]) { return false; }
    if n > 2 && !IsTail(s[at + 2]) { return false; }
    if n > 3 && !IsTail(s[at + 3]) { return false; }
    assert r[0] == s[at] && (n > 1 ==> r[1] == s[at + 1]) && (n > 2 ==> r[2] == s[at + 2])
           && (n > 3 ==> r[3] == s[at + 3]);
    return true;
  }
}
