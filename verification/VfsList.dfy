/** The directory listing of memprocfs/vfslist.c: a chain of nodes with room for twelve entries each. */
module VfsList {
  import opened Transcode

  type byte = x: int | 0 <= x < 0x100

  const ITEMS: nat := 12

  /** The parts of a VFS_ENTRY that matter here; `name` is what AddDirectoryFileInternal stores. */
  datatype Entry = Entry(name: seq<byte>, cb: nat, isDirectory: bool)

  function Lower(b: byte): byte { if 65 <= b <= 90 then b + 32 else b }

  /** _stricmp returns 0. */
  predicate SameName(a: seq<byte>, b: seq<byte>) {
    |a| == |b| && forall k :: 0 <= k < |a| ==> Lower(a[k]) == Lower(b[k])
  }

  /** Names differ at most in the case of their letters A to Z. */
  lemma SameNameIff(a: seq<byte>, b: seq<byte>)
    ensures SameName(a, b) <==>
            && |a| == |b|
            && forall k :: 0 <= k < |a| ==>
                 a[k] == b[k] || (65 <= a[k] <= 90 && b[k] == a[k] + 32) || (65 <= b[k] <= 90 && a[k] == b[k] + 32)
  {
    if |a| == |b| {
      forall k | 0 <= k < |a|
        ensures Lower(a[k]) == Lower(b[k]) <==>
                a[k] == b[k] || (65 <= a[k] <= 90 && b[k] == a[k] + 32) || (65 <= b[k] <= 90 && a[k] == b[k] + 32)
      {
        SameLetter(a[k], b[k]);
      }
    }
  }

  lemma SameLetter(x: byte, y: byte)
    ensures Lower(x) == Lower(y) <==> x == y || (65 <= x <= 90 && y == x + 32) || (65 <= y <= 90 && x == y + 32)
  {
  }

  /** The first entry with the name, by a simple search. */
  function FirstMatch(entries: seq<Entry>, name: seq<byte>): (r: Option<Entry>)
    ensures r.None? ==> forall e :: e in entries ==> !SameName(name, e.name)
    ensures r.Some? ==> exists k :: 0 <= k < |entries| && entries[k] == r.value && SameName(name, r.value.name)
                                    && forall j :: 0 <= j < k ==> !SameName(name, entries[j].name)
  {
    if |entries| == 0 then None
    else
      var front := FirstMatch(entries[..|entries| - 1], name);
      var last := entries[|entries| - 1];
      if front.Some? then front
      else if SameName(name, last.name) then Some(last) else None
  }

  class Node {
    var next: Node?
    var cFiles: nat
    const files: array<Entry>

    constructor ()
      ensures next == null && cFiles == 0 && files.Length == ITEMS && fresh(files)
    {
      next, cFiles := null, 0;
      files := new Entry[ITEMS](_ => Entry([], 0, false));
    }
  }

  /** The entries of the nodes one after another. */
  function Flat(parts: seq<seq<Entry>>): seq<Entry> {
    if |parts| == 0 then [] else Flat(parts[..|parts| - 1]) + parts[|parts| - 1]
  }

  /** At least one node; every node but the last one is full; only the only node may be empty. */
  predicate Packed(parts: seq<seq<Entry>>) {
    |parts| > 0 && (|parts| > 1 ==> |parts[|parts| - 1]| > 0) && |parts[|parts| - 1]| <= ITEMS
    && forall i :: 0 <= i < |parts| - 1 ==> |parts[i]| == ITEMS
  }

  lemma FlatGrows(parts: seq<seq<Entry>>, n: nat)
    requires n < |parts|
    ensures Flat(parts[..n + 1]) == Flat(parts[..n]) + parts[n]
  {
    assert parts[..n + 1][..n] == parts[..n];
  }

  /** What lies before, at and after entry `k` of node `at`. */
  lemma {:induction false} FlatSplit(parts: seq<seq<Entry>>, at: nat, k: nat)
    requires at < |parts| && k <= |parts[at]|
    ensures Flat(parts[..at]) + parts[at][..k] <= Flat(parts)
  {
    if at + 1 == |parts| {
      assert parts[at] == parts[at][..k] + parts[at][k..];
      assert Flat(parts) == Flat(parts[..at]) + parts[at][..k] + parts[at][k..];
    } else {
      var front := parts[..|parts| - 1];
      assert front[..at] == parts[..at];
      FlatSplit(front, at, k);
    }
  }

  /** Entry `k` is in cell `k % 12` of node `k / 12`. */
  lemma {:induction false} FlatIndex(parts: seq<seq<Entry>>, k: nat)
    requires Packed(parts) && k < |Flat(parts)|
    ensures k / 12 < |parts| && k % 12 < |parts[k / 12]| && Flat(parts)[k] == parts[k / 12][k % 12]
  {
    FlatLength(parts);
    var n := |parts| - 1;
    if k < ITEMS * n {
      FlatLength(parts[..n]);
      assert n > 1 ==> |parts[..n][n - 1]| == ITEMS;
      FlatIndex(parts[..n], k);
    }
  }

  lemma {:induction false} FlatLength(parts: seq<seq<Entry>>)
    requires |parts| > 0 && forall i :: 0 <= i < |parts| - 1 ==> |parts[i]| == ITEMS
    ensures |Flat(parts)| == ITEMS * (|parts| - 1) + |parts[|parts| - 1]|
  {
    if |parts| > 1 { FlatLength(parts[..|parts| - 1]); }
  }

  class Directory {
    const head: Node
    /** The nodes of the chain, and the entries of each. */
    ghost var spine: seq<Node>
    ghost var parts: seq<seq<Entry>>
    ghost var repr: set<object>

    ghost function Successor(i: nat): Node?
      reads this
    {
      if i + 1 < |spine| then spine[i + 1] else null
    }

    ghost predicate Holds(i: nat)
      requires i < |spine| && i < |parts|
      reads this, spine[i], spine[i].files
    {
      && spine[i].next == Successor(i) && spine[i].files.Length == ITEMS
      && spine[i].cFiles == |parts[i]| <= ITEMS && spine[i].files[..spine[i].cFiles] == parts[i]
    }

    ghost predicate Separate()
      reads this
    {
      && (forall i :: 0 <= i < |spine| ==> spine[i] in repr && spine[i].files in repr)
      && (forall i, j :: 0 <= i < j < |spine| ==> spine[i] != spine[j] && spine[i].files != spine[j].files)
    }

    ghost predicate Valid()
      reads this, repr
    {
      && Packed(parts) && |spine| == |parts| && spine[0] == head && Separate()
      && forall i :: 0 <= i < |spine| ==> Holds(i)
    }

    /** The entries added, in order. */
    ghost function Contents(): seq<Entry>
      reads this
    {
      Flat(parts)
    }

    constructor ()
      ensures Valid() && Contents() == [] && fresh(repr)
    {
      var n := new Node();
      head := n;
      spine, parts, repr := [n], [[]], {n, n.files};
    }

    /** The entry is dropped when a node has to be allocated and `heapOk` is false. */
    method Add(e: Entry, heapOk: bool)
      requires Valid()
      modifies this, repr
      ensures Valid() && fresh(repr - old(repr))
      ensures Contents() == if old(|Contents()|) > 0 && old(|Contents()|) % ITEMS == 0 && !heapOk then old(Contents())
                            else old(Contents()) + [e]
    {
      hide Packed, Flat;
      var p := head;
      ghost var at := 0;
      LastNode();
      while p.cFiles == ITEMS && p.next != null
        modifies {}
        invariant 0 <= at < |spine| && p == spine[at]
        decreases |spine| - at
      {
        assert Holds(at);
        p := p.next;
        at := at + 1;
      }
      assert Holds(at);
      NotLast(at);
      if p.cFiles == ITEMS {
        if !heapOk { return; }
        Append(p, e);
      } else {
        Fill(p, e);
      }
    }

    /** Only the last node can have room, and it has exactly when the number of entries tells so. */
    lemma LastNode()
      requires Valid()
      ensures |spine| > 0 && (spine[|spine| - 1].cFiles == ITEMS <==> |Contents()| > 0 && |Contents()| % ITEMS == 0)
    {
      FlatLength(parts);
      assert Holds(|spine| - 1);
    }

    lemma NotLast(at: nat)
      requires Valid() && at < |spine|
      ensures at + 1 < |spine| ==> spine[at].cFiles == ITEMS && spine[at].next != null
    {
      assert Holds(at);
    }

    /** Puts a node with one entry behind a full last one. */
    method Append(p: Node, e: Entry)
      requires Valid() && p == spine[|spine| - 1] && p.cFiles == ITEMS
      modifies this, p
      ensures Valid() && fresh(repr - old(repr)) && Contents() == old(Contents()) + [e]
    {
      var n := new Node();
      n.files[0] := e;
      n.cFiles := 1;
      ghost var last := |spine| - 1;
      assert Holds(last) && forall i :: 0 <= i < |spine| ==> Holds(i);
      p.next := n;
      spine, parts, repr := spine + [n], parts + [[e]], repr + {n, n.files};
      assert parts[..|parts| - 1] == old(parts);
      forall i | 0 <= i < |spine| ensures Holds(i) {
        assert i <= last ==> spine[i] == old(spine)[i] && old(Holds(i));
      }
    }

    /** Puts an entry into the last node. */
    method Fill(p: Node, e: Entry)
      requires Valid() && p == spine[|spine| - 1] && p.cFiles < ITEMS
      modifies this, p, p.files
      ensures Valid() && repr == old(repr) && Contents() == old(Contents()) + [e]
    {
      ghost var last := |spine| - 1;
      assert Holds(last) && |parts[last]| < ITEMS;
      p.files[p.cFiles] := e;
      p.cFiles := p.cFiles + 1;
      parts := parts[last := parts[last] + [e]];
      assert parts[..last] == old(parts)[..last];
      assert Contents() == old(Contents()) + [e];
      forall i | 0 <= i < |spine| ensures Holds(i) {
        assert old(Holds(i));
        assert i != last ==> spine[i] != p && spine[i].files != p.files;
      }
    }

    /** The entries in the order in which the callback sees them. */
    method ListDirectory() returns (seen: seq<Entry>)
      requires Valid()
      ensures seen == Contents()
    {
      hide Packed, Separate, Flat;
      seen := [];
      var p: Node? := head;
      ghost var at := 0;
      NoParts();
      LastNode();
      assert parts[..0] == [];
      while p != null
        invariant 0 <= at <= |spine| && p == if at < |spine| then spine[at] else null
        invariant seen == Flat(parts[..at])
        decreases |spine| - at
      {
        assert Holds(at);
        FlatGrows(parts, at);
        var i := 0;
        while i < p.cFiles
          invariant 0 <= i <= p.cFiles && seen == Flat(parts[..at]) + parts[at][..i]
        {
          seen := seen + [p.files[i]];
          i := i + 1;
        }
        p := p.next;
        at := at + 1;
      }
      assert parts[..at] == parts;
    }

    method GetSingle(name: seq<byte>) returns (r: Option<Entry>)
      requires Valid()
      ensures r == FirstMatch(Contents(), name)
    {
      hide SameName, Packed, Separate, Flat, FirstMatch;
      var p: Node? := head;
      ghost var at, seen := 0, [];
      NoParts();
      LastNode();
      NoMatch(name);
      assert parts[..0] == [];
      while p != null
        invariant 0 <= at <= |spine| && p == if at < |spine| then spine[at] else null
        invariant seen == Flat(parts[..at]) && FirstMatch(seen, name) == None
        decreases |spine| - at
      {
        assert Holds(at);
        FlatGrows(parts, at);
        var i := 0;
        while i < p.cFiles
          invariant 0 <= i <= p.cFiles && seen == Flat(parts[..at]) + parts[at][..i]
          invariant FirstMatch(seen, name) == None
        {
          MatchGrows(seen, p.files[i], name);
          seen := seen + [p.files[i]];
          if SameName(name, p.files[i].name) {
            FlatSplit(parts, at, i + 1);
            assert seen == Flat(parts[..at]) + parts[at][..i + 1];
            assert Contents()[..|seen|] == seen;
            MatchStays(Contents(), name, |seen|);
            return Some(p.files[i]);
          }
          i := i + 1;
        }
        p := p.next;
        at := at + 1;
      }
      assert parts[..at] == parts;
      r := None;
    }
  }

  lemma NoParts()
    ensures Flat([]) == []
  {
  }

  lemma NoMatch(name: seq<byte>)
    ensures FirstMatch([], name) == None
  {
  }

  lemma MatchGrows(entries: seq<Entry>, e: Entry, name: seq<byte>)
    requires FirstMatch(entries, name) == None
    ensures FirstMatch(entries + [e], name) == if SameName(name, e.name) then Some(e) else None
  {
    assert (entries + [e])[..|entries|] == entries;
  }

  lemma {:induction false} MatchStays(entries: seq<Entry>, name: seq<byte>, n: nat)
    requires n <= |entries| && FirstMatch(entries[..n], name).Some?
    ensures FirstMatch(entries, name) == FirstMatch(entries[..n], name)
  {
    if n < |entries| {
      var front := entries[..|entries| - 1];
      assert front[..n] == entries[..n];
      MatchStays(front, name, n);
    } else {
      assert entries[..n] == entries;
    }
  }
}
