/**
 The file and directory tree of files/vmmpyplugin.py. The source keeps one nested dictionary for the root and one
 for the processes; here each is a `Registry`, and a nested dictionary is a map of maps.
 */
module PluginTree {
  import opened Transcode

  type Callback = nat

  datatype Node =
    | File(size: nat, read: Callback, write: Option<Callback>)
    | Dir(list: Option<Callback>, dirs: map<string, Node>)

  type Dict = map<string, Node>

  type Path = seq<string>

  /** list(filter(None, path.split('/'))) */
  function Split(path: string): (items: Path)
    ensures forall i :: i in items ==> i != "" && '/' !in i
  {
    var n := Component(path);
    if |path| == 0 then []
    else if n == 0 then Split(path[1..])
    else [path[..n]] + Split(path[n..])
  }

  function Component(path: string): (n: nat)
    ensures n <= |path| && '/' !in path[..n] && (n < |path| ==> path[n] == '/')
  {
    if |path| == 0 || path[0] == '/' then 0 else 1 + Component(path[1..])
  }

  /** A text without slashes is one component, or none if it is empty. */
  lemma SplitWord(x: string)
    requires '/' !in x
    ensures Split(x) == if x == "" then [] else [x]
  {
    if x != "" {
      WholeComponent(x, "");
      assert x + "" == x && Split("") == [];
    }
  }

  lemma {:induction false} WholeComponent(x: string, rest: string)
    requires '/' !in x && (rest != "" ==> rest[0] == '/')
    ensures Component(x + rest) == |x|
  {
    if x == "" {
      assert x + rest == rest;
    } else {
      assert (x + rest)[0] == x[0] && (x + rest)[1..] == x[1..] + rest;
      WholeComponent(x[1..], rest);
    }
  }

  /** The first component comes off. */
  lemma SplitOff(x: string, rest: string)
    requires x != "" && '/' !in x && (rest != "" ==> rest[0] == '/')
    ensures Split(x + rest) == [x] + Split(rest)
  {
    hide Component;
    WholeComponent(x, rest);
    assert (x + rest)[..|x|] == x && (x + rest)[|x|..] == rest;
  }

  /** So does a slash in front. */
  lemma SlashOff(rest: string)
    ensures Split("/" + rest) == Split(rest)
  {
    assert ("/" + rest)[1..] == rest;
  }

  /** A slash separates: what is on either side of it is split on its own. */
  lemma {:induction false} SplitAtSlash(a: string, b: string)
    ensures Split(a + "/" + b) == Split(a) + Split(b)
    decreases |a|
  {
    hide Split, Component;
    var n := Component(a);
    if a == "" {
      assert a + "/" + b == "/" + b;
      SlashOff(b);
      SplitWord(a);
    } else if n == 0 {
      var rest := a[1..];
      assert a == "/" + rest && a + "/" + b == "/" + (rest + "/" + b);
      SlashOff(rest);
      SlashOff(rest + "/" + b);
      SplitAtSlash(rest, b);
    } else {
      var x, rest := a[..n], a[n..];
      assert a == x + rest && a + "/" + b == x + (rest + "/" + b);
      SplitOff(x, rest);
      SplitOff(x, rest + "/" + b);
      SplitAtSlash(rest, b);
    }
  }

  /** The components joined by slashes. */
  function Join(items: Path): string {
    if |items| == 0 then "" else items[0] + "/" + Join(items[1..])
  }

  /** Splitting finds the components a path was joined from. */
  lemma {:induction false} SplitInvertsJoin(items: Path)
    requires forall i :: i in items ==> i != "" && '/' !in i
    ensures Split(Join(items)) == items
  {
    if |items| > 0 {
      assert items[0] in items && forall i :: i in items[1..] ==> i in items;
      SplitInvertsJoin(items[1..]);
      SplitAtSlash(items[0], Join(items[1..]));
      SplitWord(items[0]);
    }
  }

  datatype Outcome = Done | IndexError | KeyError | TypeError | RuntimeError

  function Front(p: Path): Path
    requires |p| > 0
  {
    p[..|p| - 1]
  }

  function Last(p: Path): string
    requires |p| > 0
  {
    p[|p| - 1]
  }

  // ---------------------------------------------------------------- the tree as a map from paths

  /** What a path names, leaving out what is below it. */
  datatype Info = NoEntry | FileAt(file: Node) | DirAt(list: Option<Callback>)

  function InfoOf(n: Node): Info { if n.File? then FileAt(n) else DirAt(n.list) }

  function Get(d: Dict, p: Path): Info
    requires |p| > 0
    decreases |p|
  {
    if p[0] !in d then NoEntry
    else if |p| == 1 then InfoOf(d[p[0]])
    else if d[p[0]].File? then NoEntry
    else Get(d[p[0]].dirs, p[1..])
  }

  /** A directory that lists nothing dynamically and contains nothing yet. */
  const EMPTY: Node := Dir(None, map[])

  /** The directory under `x`, or one to be created. */
  function Child(d: Dict, x: string): Node { if x in d then d[x] else EMPTY }

  /** The existing part of the way along `p` consists of directories without a listing of their own. */
  predicate Clear(d: Dict, p: Path)
    decreases |p|
  {
    |p| == 0 || (Child(d, p[0]).Dir? && Child(d, p[0]).list.None? && Clear(Child(d, p[0]).dirs, p[1..]))
  }

  /** The tree with the missing directories along `p` created. */
  function Made(d: Dict, p: Path): Dict
    requires Clear(d, p)
    decreases |p|
  {
    if |p| == 0 then d else d[p[0] := Dir(None, Made(Child(d, p[0]).dirs, p[1..]))]
  }

  /** The dictionary reached along `p`. */
  function Below(d: Dict, p: Path): Dict
    requires Clear(d, p)
    decreases |p|
  {
    if |p| == 0 then d else Below(Child(d, p[0]).dirs, p[1..])
  }

  /** The tree with `n` stored as `x` in the dictionary reached along `p`. */
  function Stored(d: Dict, p: Path, x: string, n: Node): Dict
    requires Clear(d, p)
    decreases |p|
  {
    if |p| == 0 then d[x := n] else d[p[0] := Dir(None, Stored(Child(d, p[0]).dirs, p[1..], x, n))]
  }

  // ---------------------------------------------------------------- what storing does to the map

  lemma {:induction false} BelowIsGet(d: Dict, p: Path, x: string)
    requires Clear(d, p)
    ensures Get(d, p + [x]) == if x in Below(d, p) then InfoOf(Below(d, p)[x]) else NoEntry
    decreases |p|
  {
    if |p| > 0 {
      var c := Child(d, p[0]);
      assert (p + [x])[0] == p[0] && (p + [x])[1..] == p[1..] + [x];
      BelowIsGet(c.dirs, p[1..], x);
      if p[0] !in d { NothingInEmpty(p[1..], x); }
    }
  }

  lemma {:induction false} NothingInEmpty(p: Path, x: string)
    ensures Clear(map[], p) && x !in Below(map[], p)
  {
    if |p| > 0 { NothingInEmpty(p[1..], x); }
  }

  predicate Prefix(p: Path, q: Path) { |p| <= |q| && q[..|p|] == p }

  /**
   The refinement: storing at p + [x] maps that path to the new node, the directories on the way to directories,
   what is below the path to what the node contains, and leaves every other path alone.
   */
  lemma {:induction false} StoredGet(d: Dict, p: Path, x: string, n: Node, q: Path)
    requires Clear(d, p) && |q| > 0 && (n.File? || n.dirs == map[])
    ensures Get(Stored(d, p, x, n), q) ==
            if q == p + [x] then InfoOf(n)
            else if Prefix(p + [x], q) then NoEntry
            else if Prefix(q, p) then DirAt(None)
            else Get(d, q)
    decreases |p|
  {
    var s := Stored(d, p, x, n);
    if |p| == 0 {
      assert q[0] == x ==> Prefix([x], q);
      assert !Prefix(q, p);
      assert q == [x] <==> q[0] == x && |q| == 1;
      assert p + [x] == [x];
    } else {
      var c := Child(d, p[0]);
      assert (p + [x])[0] == p[0] && (p + [x])[1..] == p[1..] + [x];
      if q[0] != p[0] {
        PrefixHead(p + [x], q);
        PrefixHead(q, p);
      } else if |q| == 1 {
        assert q == p[..1] && Prefix(q, p);
      } else {
        StoredGet(c.dirs, p[1..], x, n, q[1..]);
        assert q == [q[0]] + q[1..] && p == [p[0]] + p[1..];
        assert q == p + [x] <==> q[1..] == p[1..] + [x];
        PrefixTail(p + [x], q);
        PrefixTail(q, p);
        if p[0] !in d { EmptyGet(q[1..]); }
      }
    }
  }

  lemma PrefixHead(p: Path, q: Path)
    requires |p| > 0
    ensures Prefix(p, q) ==> |q| > 0 && q[0] == p[0]
  {
    if Prefix(p, q) { assert q[..|p|][0] == q[0]; }
  }

  lemma PrefixTail(p: Path, q: Path)
    requires |p| > 0 && |q| > 0 && p[0] == q[0]
    ensures Prefix(p, q) <==> Prefix(p[1..], q[1..])
  {
    if |p| <= |q| {
      assert q[..|p|] == [q[0]] + q[1..][..|p| - 1] && p == [p[0]] + p[1..];
      assert q[..|p|][1..] == q[1..][..|p| - 1];
    }
  }

  lemma EmptyGet(q: Path)
    ensures |q| > 0 ==> Get(map[], q) == NoEntry
  {
  }

  // ---------------------------------------------------------------- the walk of the register functions

  lemma {:induction false} ClearSnoc(d: Dict, p: Path, x: string)
    requires Clear(d, p)
    ensures Clear(d, p + [x]) <==> Child(Below(d, p), x).Dir? && Child(Below(d, p), x).list.None?
    decreases |p|
  {
    if |p| > 0 {
      assert (p + [x])[1..] == p[1..] + [x];
      ClearSnoc(Child(d, p[0]).dirs, p[1..], x);
    } else {
      assert [x][1..] == [] && p + [x] == [x];
    }
  }

  lemma {:induction false} MadeSnoc(d: Dict, p: Path, x: string)
    requires Clear(d, p) && Clear(d, p + [x])
    ensures Child(Below(d, p), x).Dir? && Below(d, p + [x]) == Child(Below(d, p), x).dirs
    ensures Clear(Made(d, p), p) && Below(Made(d, p), p) == Below(d, p)
    ensures Made(d, p + [x]) == if x in Below(d, p) then Made(d, p) else Stored(Made(d, p), p, x, EMPTY)
    decreases |p|
  {
    if |p| > 0 {
      var c := Child(d, p[0]).dirs;
      assert (p + [x])[0] == p[0] && (p + [x])[1..] == p[1..] + [x];
      MadeSnoc(c, p[1..], x);
      assert Child(Made(d, p), p[0]) == Dir(None, Made(c, p[1..]));
    } else {
      assert p + [x] == [x] && [x][1..] == [];
      assert x in d && d[x].Dir? && d[x].list.None? ==> d[x := Dir(None, d[x].dirs)] == d;
    }
  }

  lemma {:induction false} StoredAfterMade(d: Dict, p: Path, x: string, n: Node)
    requires Clear(d, p)
    ensures Clear(Made(d, p), p) && Below(Made(d, p), p) == Below(d, p)
    ensures Stored(Made(d, p), p, x, n) == Stored(d, p, x, n)
    decreases |p|
  {
    if |p| > 0 {
      StoredAfterMade(Child(d, p[0]).dirs, p[1..], x, n);
      assert Child(Made(d, p), p[0]) == Dir(None, Made(Child(d, p[0]).dirs, p[1..]));
    }
  }

  lemma {:induction false} ClearPrefix(d: Dict, p: Path, k: nat)
    requires k <= |p| && Clear(d, p)
    ensures Clear(d, p[..k])
    decreases |p|
  {
    if k > 0 {
      assert p[..k][1..] == p[1..][..k - 1];
      ClearPrefix(Child(d, p[0]).dirs, p[1..], k - 1);
    }
  }

  /** The walk along `p` meets a file before anything else stops it. */
  predicate HitsFile(d: Dict, p: Path)
    decreases |p|
  {
    |p| > 0 && var c := Child(d, p[0]); (c.File? || (c.list.None? && HitsFile(c.dirs, p[1..])))
  }

  // ---------------------------------------------------------------- the walk of the other two functions

  /** The walk along `p` passes directories only and ends at the dictionary `here`. */
  predicate Leads(d: Dict, p: Path, here: Dict)
    decreases |p|
  {
    if |p| == 0 then here == d
    else p[0] in d && d[p[0]].Dir? && Leads(d[p[0]].dirs, p[1..], here)
  }

  /** What a path names that starts inside `n`. */
  function Inside(n: Node, q: Path): Info {
    if |q| == 0 then InfoOf(n) else if n.File? then NoEntry else Get(n.dirs, q)
  }

  lemma {:induction false} LeadsGet(d: Dict, p: Path, here: Dict, q: Path)
    requires Leads(d, p, here) && |q| > 0
    ensures Get(d, p + q) == Get(here, q)
    decreases |p|
  {
    if |p| == 0 {
      assert p + q == q;
    } else {
      assert (p + q)[0] == p[0] && (p + q)[1..] == p[1..] + q;
      LeadsGet(d[p[0]].dirs, p[1..], here, q);
    }
  }

  lemma {:induction false} LeadsOn(d: Dict, p: Path, here: Dict, x: string)
    requires Leads(d, p, here) && x in here && here[x].Dir?
    ensures Leads(d, p + [x], here[x].dirs)
    decreases |p|
  {
    if |p| == 0 {
      assert p + [x] == [x] && [x][1..] == [];
    } else {
      assert (p + [x])[0] == p[0] && (p + [x])[1..] == p[1..] + [x];
      LeadsOn(d[p[0]].dirs, p[1..], here, x);
    }
  }

  lemma LeadsStarts(d: Dict, p: Path)
    ensures Leads(d, p[..0], d)
  {
  }

  /** What a walk that has come to `here` finds next. */
  lemma Look(d: Dict, p: Path, i: nat, here: Dict)
    requires i < |p| && Leads(d, p[..i], here)
    ensures Get(d, p[..i + 1]) == if p[i] in here then InfoOf(here[p[i]]) else NoEntry
    ensures p[i] in here && here[p[i]].Dir? ==> Leads(d, p[..i + 1], here[p[i]].dirs)
    ensures p[i] in here ==> forall q :: Get(d, p[..i + 1] + q) == Inside(here[p[i]], q)
    ensures i + 1 == |p| ==> p[..i + 1] == p
  {
    var x := p[i];
    assert p[..i + 1] == p[..i] + [x];
    LeadsGet(d, p[..i], here, [x]);
    if x in here {
      if here[x].Dir? { LeadsOn(d, p[..i], here, x); }
      forall q ensures Get(d, p[..i + 1] + q) == Inside(here[x], q) {
        assert p[..i + 1] + q == p[..i] + ([x] + q);
        LeadsGet(d, p[..i], here, [x] + q);
        assert ([x] + q)[1..] == q;
      }
    }
  }

  /** Nothing lies below a path that names no directory. */
  lemma {:induction false} NothingBelow(d: Dict, p: Path, q: Path)
    requires |p| > 0 && |q| > 0 && !Get(d, p).DirAt?
    ensures Get(d, p + q) == NoEntry
    decreases |p|
  {
    assert (p + q)[0] == p[0] && (p + q)[1..] == p[1..] + q;
    if p[0] in d && d[p[0]].Dir? { NothingBelow(d[p[0]].dirs, p[1..], q); }
  }

  lemma BelowNoDirectory(d: Dict, p: Path, k: nat)
    requires 0 < k < |p| && !Get(d, p[..k]).DirAt?
    ensures forall j :: k < j <= |p| ==> Get(d, p[..j]) == NoEntry
    ensures Get(d, p) == NoEntry
  {
    forall j | k < j <= |p| ensures Get(d, p[..j]) == NoEntry {
      assert p[..j] == p[..k] + p[k..j];
      NothingBelow(d, p[..k], p[k..j]);
    }
    assert p[..|p|] == p;
  }

  /** Something above `p` is a file. */
  predicate FileOnTheWay(d: Dict, p: Path) { exists k :: 0 < k < |p| && Get(d, p[..k]).FileAt? }

  /** How far a walk along `p`, at length `k`, gets: to the first path that is no directory of the plain kind. */
  function Stop(d: Dict, p: Path, k: nat): (n: nat)
    requires 1 <= k <= |p|
    ensures k <= n <= |p| && (n < |p| ==> Get(d, p[..n]) != DirAt(None))
    ensures forall j :: k <= j < n ==> Get(d, p[..j]) == DirAt(None)
    decreases |p| - k
  {
    if k == |p| || Get(d, p[..k]) != DirAt(None) then k else Stop(d, p, k + 1)
  }

  /** How a lookup of `p` ends, told by what `p` and the paths above it name. */
  function Answer(d: Dict, p: Path, dynamic: (Callback, Path) -> Option<Dict>): Outcome {
    if |p| == 0 then IndexError
    else
      var k := Stop(d, p, 1);
      var at := Get(d, p[..k]);
      if at.NoEntry? then RuntimeError
      else if k == |p| then Done
      else if at.FileAt? then KeyError
      else
        var listed := dynamic(at.list.value, Front(p));
        if listed.None? then TypeError else if Last(p) in listed.value then Done else RuntimeError
  }

  /** The lookup of `p` finds `n`. */
  ghost predicate Shows(d: Dict, p: Path, dynamic: (Callback, Path) -> Option<Dict>, n: Node)
    requires |p| > 0
  {
    var k := Stop(d, p, 1);
    if k == |p| then forall q :: Get(d, p + q) == Inside(n, q)
    else
      var at := Get(d, p[..k]);
      && at.DirAt?
      && var listed := dynamic(at.list.value, Front(p));
         listed.Some? && Last(p) in listed.value && n == listed.value[Last(p)]
  }

  /** Nothing stands in the way of registering `p`. */
  predicate CanRegister(d: Dict, p: Path, overwrite: bool) {
    |p| > 0 && Clear(d, Front(p)) && (overwrite || Last(p) !in Below(d, Front(p)))
  }

  class Registry {
    var root: Dict

    constructor ()
      ensures root == map[]
    {
      root := map[];
    }

    /**
     The body shared by FileRegister and FileRegisterDirectory, which differ in the node they store. Directories
     are created on the way; a failure leaves the tree as it was, since nothing can fail once one is created.
     */
    method Register(path: string, node: Node, overwrite: bool) returns (r: Outcome)
      modifies this
      ensures r == Done <==> CanRegister(old(root), Split(path), overwrite)
      ensures r == IndexError <==> Split(path) == []
      ensures r == KeyError <==> |Split(path)| > 0 && HitsFile(old(root), Front(Split(path)))
      ensures r != TypeError
      ensures r == Done ==> root == Stored(old(root), Front(Split(path)), Last(Split(path)), node)
      ensures r != Done ==> root == old(root)
    {
      hide Clear, Made, Below, Stored, Split;
      var items := Split(path);
      if items == [] { return IndexError; }
      var name, dirs := Last(items), Front(items);
      var here, i := root, 0;
      ghost var was := root;
      Nowhere(was);
      assert dirs[..0] == [] && dirs[0..] == dirs;
      while i < |dirs|
        invariant 0 <= i <= |dirs| && Clear(was, dirs[..i])
        invariant here == Below(was, dirs[..i]) && root == Made(was, dirs[..i])
        invariant root == was || here == map[]
        invariant HitsFile(was, dirs) == HitsFile(here, dirs[i..])
      {
        var x := dirs[i];
        assert dirs[i..][0] == x && dirs[i..][1..] == dirs[i + 1..];
        var p := dirs[..i];
        assert dirs[..i + 1] == p + [x];
        ClearSnoc(was, p, x);
        if !Child(here, x).Dir? || !Child(here, x).list.None? {
          if Clear(was, dirs) { ClearPrefix(was, dirs, i + 1); }
          assert x in here;
          return if here[x].File? then KeyError else RuntimeError;
        }
        MadeSnoc(was, p, x);
        if x !in here {
          root := Stored(root, p, x, EMPTY);
          here := here[x := EMPTY];
        }
        here := here[x].dirs;
        i := i + 1;
      }
      assert dirs[..i] == dirs;
      if !overwrite && name in here { return RuntimeError; }
      StoredAfterMade(was, dirs, name, node);
      root := Stored(root, dirs, name, node);
      r := Done;
    }

    method FileRegister(path: string, size: nat, read: Callback, write: Option<Callback>, overwrite: bool)
      returns (r: Outcome)
      modifies this
      ensures r == Done <==> CanRegister(old(root), Split(path), overwrite)
      ensures r == Done ==> root == Stored(old(root), Front(Split(path)), Last(Split(path)), File(size, read, write))
      ensures r != Done ==> root == old(root)
    {
      r := Register(path, File(size, read, write), overwrite);
    }

    method FileRegisterDirectory(path: string, list: Option<Callback>, overwrite: bool) returns (r: Outcome)
      modifies this
      ensures r == Done <==> CanRegister(old(root), Split(path), overwrite)
      ensures r == Done ==> root == Stored(old(root), Front(Split(path)), Last(Split(path)), Dir(list, map[]))
      ensures r != Done ==> root == old(root)
    {
      r := Register(path, Dir(list, map[]), overwrite);
    }

    /** Removes an entry with everything below it; a directory's listing does not matter here. */
    method FileUnregister(path: string) returns (r: Outcome)
      modifies this
      ensures r == Done <==> |Split(path)| > 0 && Get(old(root), Split(path)) != NoEntry
      ensures r == IndexError <==> Split(path) == []
      ensures r == KeyError <==> FileOnTheWay(old(root), Split(path))
      ensures r != TypeError
      ensures r == Done ==> root == Removed(old(root), Split(path))
      ensures r != Done ==> root == old(root)
    {
      hide Split, Get, Removed, Leads;
      var items := Split(path);
      if items == [] { return IndexError; }
      var here, i := root, 0;
      LeadsStarts(root, items);
      while i < |items| - 1
        invariant 0 <= i < |items| && root == old(root) && Leads(root, items[..i], here)
        invariant forall j :: 0 < j <= i ==> Get(root, items[..j]).DirAt?
      {
        var x := items[i];
        Look(root, items, i, here);
        if x !in here {
          BelowNoDirectory(root, items, i + 1);
          return RuntimeError;
        }
        if here[x].File? {
          BelowNoDirectory(root, items, i + 1);
          return KeyError;
        }
        here := here[x].dirs;
        i := i + 1;
      }
      Look(root, items, i, here);
      if items[i] !in here { return RuntimeError; }
      root := Removed(root, items);
      r := Done;
    }

    /**
     Where a path leads. `dynamic` is what a listing callback returns for a directory, None if it returns None;
     everything below a directory with a callback is looked up in that.
     */
    method FileRetrieve(path: string, dynamic: (Callback, Path) -> Option<Dict>) returns (r: Outcome, n: Node)
      ensures r == Answer(root, Split(path), dynamic)
      ensures r == Done ==> Shows(root, Split(path), dynamic, n)
    {
      hide Split, Get, Leads;
      n := EMPTY;
      var items := Split(path);
      if items == [] { return IndexError, n; }
      var here, i := root, 0;
      LeadsStarts(root, items);
      while i < |items| - 1
        invariant 0 <= i < |items| && Leads(root, items[..i], here)
        invariant Stop(root, items, 1) == Stop(root, items, i + 1)
      {
        var x := items[i];
        Look(root, items, i, here);
        if x !in here { return RuntimeError, n; }
        if here[x].File? { return KeyError, n; }
        if here[x].list.Some? {
          var listed := dynamic(here[x].list.value, Front(items));
          if listed.None? { return TypeError, n; }
          if Last(items) !in listed.value { return RuntimeError, n; }
          return Done, listed.value[Last(items)];
        }
        here := here[x].dirs;
        i := i + 1;
      }
      Look(root, items, i, here);
      if items[i] !in here { return RuntimeError, n; }
      r, n := Done, here[items[i]];
    }
  }

  lemma Nowhere(d: Dict)
    ensures Clear(d, []) && Below(d, []) == d && Made(d, []) == d
  {
  }

  /** The tree without the entry `p` names. */
  function Removed(d: Dict, p: Path): Dict
    requires |p| > 0
    decreases |p|
  {
    if p[0] !in d then d
    else if |p| == 1 then d - {p[0]}
    else if d[p[0]].File? then d
    else d[p[0] := Dir(d[p[0]].list, Removed(d[p[0]].dirs, p[1..]))]
  }

  /** Removing unmaps the path and what is below it, and nothing else. */
  lemma {:induction false} RemovedGet(d: Dict, p: Path, q: Path)
    requires |p| > 0 && |q| > 0
    ensures Get(Removed(d, p), q) == if Prefix(p, q) then NoEntry else Get(d, q)
    decreases |p|
  {
    if q[0] != p[0] {
      PrefixHead(p, q);
    } else if p[0] in d {
      if |p| == 1 {
        assert q[..1] == [q[0]] == p;
      } else if d[p[0]].Dir? && |q| > 1 {
        RemovedGet(d[p[0]].dirs, p[1..], q[1..]);
        PrefixTail(p, q);
      }
    }
  }

  // ---------------------------------------------------------------- what storing does to later lookups

  /** What has just been registered is what a lookup of its path finds. */
  lemma RegisteredIsRetrieved(d: Dict, p: Path, x: string, n: Node, dynamic: (Callback, Path) -> Option<Dict>)
    requires Clear(d, p) && (n.File? || n.dirs == map[])
    ensures var s, whole := Stored(d, p, x, n), p + [x];
            && Answer(s, whole, dynamic) == Done
            && forall m :: Shows(s, whole, dynamic, m) <==> forall q :: Inside(m, q) == Inside(n, q)
  {
    hide Clear, Stored, Get, Inside;
    var s, whole := Stored(d, p, x, n), p + [x];
    forall k | 0 < k < |whole| ensures Get(s, whole[..k]) == DirAt(None) {
      assert whole[..k] == p[..k];
      StoredGet(d, p, x, n, p[..k]);
    }
    StoredGet(d, p, x, n, whole);
    assert whole[..|whole|] == whole;
    forall q ensures Get(s, whole + q) == Inside(n, q) {
      StoredGet(d, p, x, n, whole + q);
      InsideLeaf(n, q);
      assert (whole + q)[..|whole|] == whole;
      assert whole + q == whole <==> q == [];
    }
    assert Stop(s, whole, 1) == |whole|;
    forall m ensures Shows(s, whole, dynamic, m) <==> forall q :: Inside(m, q) == Inside(n, q) {
      assert forall q :: Get(s, whole + q) == Inside(n, q);
    }
  }

  lemma InsideLeaf(n: Node, q: Path)
    requires n.File? || n.dirs == map[]
    ensures Inside(n, q) == if q == [] then InfoOf(n) else NoEntry
  {
  }

  lemma {:induction false} ClearGet(d: Dict, p: Path)
    requires Clear(d, p) && |p| > 0
    ensures Get(d, p) == NoEntry || Get(d, p) == DirAt(None)
    decreases |p|
  {
    if |p| > 1 && p[0] in d { ClearGet(d[p[0]].dirs, p[1..]); }
  }

  /** Registering at p + [x] changes no lookup but those of the paths above and below it. */
  lemma OtherLookupsStay(d: Dict, p: Path, x: string, n: Node, q: Path, dynamic: (Callback, Path) -> Option<Dict>)
    requires Clear(d, p) && (n.File? || n.dirs == map[]) && |q| > 0 && !Prefix(p + [x], q) && !Prefix(q, p)
    ensures var s := Stored(d, p, x, n);
            && Answer(s, q, dynamic) == Answer(d, q, dynamic)
            && (Answer(d, q, dynamic) == Done ==> forall m :: Shows(s, q, dynamic, m) <==> Shows(d, q, dynamic, m))
  {
    hide Clear, Stored, Get, Inside, Shows, Answer;
    var s := Stored(d, p, x, n);
    forall k | 0 < k <= |q|
      ensures Get(s, q[..k]) == if Prefix(q[..k], p) then DirAt(None) else Get(d, q[..k])
      ensures Prefix(q[..k], p) ==> Get(d, q[..k]) == NoEntry || Get(d, q[..k]) == DirAt(None)
    {
      StoredGet(d, p, x, n, q[..k]);
      Apart(p, x, q, q[..k]);
      if Prefix(q[..k], p) {
        ClearPrefix(d, p, k);
        ClearGet(d, p[..k]);
      }
    }
    assert q[..|q|] == q;
    if k: nat :| 0 < k < |q| && Prefix(q[..k], p) && Get(d, q[..k]) == NoEntry {
      BelowNoDirectory(d, q, k);
      forall j | 0 < j <= |q|
        ensures Get(d, q[..j]) == NoEntry || Get(d, q[..j]) == DirAt(None)
        ensures Get(s, q[..j]) == NoEntry || Get(s, q[..j]) == DirAt(None)
      {
        if j < k { ShorterPrefix(q, p, j, k); }
      }
      Missing(d, q, dynamic);
      Missing(s, q, dynamic);
    } else {
      assert forall k :: 0 < k <= |q| ==> Get(s, q[..k]) == Get(d, q[..k]);
      forall r ensures Get(s, q + r) == Get(d, q + r) {
        StoredGet(d, p, x, n, q + r);
        ApartBelow(p, x, q, r);
      }
      SameLookup(d, s, q, dynamic);
    }
  }

  lemma PrefixTransitive(a: Path, b: Path, c: Path)
    ensures Prefix(a, b) && Prefix(b, c) ==> Prefix(a, c)
  {
    if Prefix(a, b) && Prefix(b, c) { assert c[..|a|] == c[..|b|][..|a|]; }
  }

  lemma PrefixesCompare(a: Path, b: Path, c: Path)
    ensures Prefix(a, c) && Prefix(b, c) ==> Prefix(a, b) || Prefix(b, a)
  {
    if Prefix(a, c) && Prefix(b, c) {
      if |a| <= |b| { assert c[..|b|][..|a|] == c[..|a|]; } else { assert c[..|a|][..|b|] == c[..|b|]; }
    }
  }

  lemma PrefixSnoc(q: Path, p: Path, x: string)
    ensures Prefix(q, p + [x]) ==> Prefix(q, p) || Prefix(p + [x], q)
  {
    if |q| <= |p| { assert (p + [x])[..|q|] == p[..|q|]; }
    assert |q| == |p| + 1 ==> q[..|p| + 1] == q && (p + [x])[..|q|] == p + [x];
  }

  lemma PrefixSelf(p: Path, r: Path)
    ensures Prefix(p, p) && Prefix(p, p + r)
  {
  }

  /**
   `q` and `p + [x]` have parted company: so have what is below `q` and, as far as stored paths go, what is above it.
   */
  lemma Apart(p: Path, x: string, q: Path, q': Path)
    requires !Prefix(p + [x], q) && Prefix(q', q)
    ensures !Prefix(p + [x], q') && q' != p + [x]
  {
    PrefixTransitive(p + [x], q', q);
    PrefixSelf(p + [x], []);
  }

  lemma ApartBelow(p: Path, x: string, q: Path, r: Path)
    requires !Prefix(p + [x], q) && !Prefix(q, p)
    ensures !Prefix(p + [x], q + r) && !Prefix(q + r, p) && q + r != p + [x]
  {
    hide Prefix;
    PrefixesCompare(p + [x], q, q + r);
    PrefixSnoc(q, p, x);
    PrefixTransitive(q, q + r, p);
    PrefixSelf(q, r);
    PrefixSelf(p + [x], []);
  }

  lemma ShorterPrefix(q: Path, p: Path, j: nat, k: nat)
    requires j <= k <= |q| && Prefix(q[..k], p)
    ensures Prefix(q[..j], p)
  {
    assert q[..k][..j] == q[..j];
    PrefixTransitive(q[..j], q[..k], p);
  }

  lemma Missing(d: Dict, q: Path, dynamic: (Callback, Path) -> Option<Dict>)
    requires |q| > 0 && Get(d, q) == NoEntry
    requires forall k :: 0 < k <= |q| ==> Get(d, q[..k]) == NoEntry || Get(d, q[..k]) == DirAt(None)
    ensures Answer(d, q, dynamic) == RuntimeError
  {
    hide Get;
    assert q[..|q|] == q;
  }

  lemma SameLookup(d: Dict, s: Dict, q: Path, dynamic: (Callback, Path) -> Option<Dict>)
    requires |q| > 0 && (forall k :: 0 < k <= |q| ==> Get(s, q[..k]) == Get(d, q[..k]))
             && forall r :: Get(s, q + r) == Get(d, q + r)
    ensures Answer(s, q, dynamic) == Answer(d, q, dynamic)
    ensures forall m :: Shows(s, q, dynamic, m) <==> Shows(d, q, dynamic, m)
  {
    hide Get, Inside;
    SameStop(d, s, q, 1);
  }

  lemma {:induction false} SameStop(d: Dict, s: Dict, q: Path, k: nat)
    requires 1 <= k <= |q| && forall j :: 0 < j <= |q| ==> Get(s, q[..j]) == Get(d, q[..j])
    ensures Stop(s, q, k) == Stop(d, q, k)
    decreases |q| - k
  {
    hide Get;
    if k < |q| { SameStop(d, s, q, k + 1); }
  }

  // ---------------------------------------------------------------- when a path can be registered

  /** Nothing above `p` but directories of the plain kind, or nothing at all. */
  predicate WayIsFree(d: Dict, p: Path) {
    forall k :: 0 < k < |p| ==> Get(d, p[..k]) == NoEntry || Get(d, p[..k]) == DirAt(None)
  }

  lemma {:induction false} ClearIff(d: Dict, p: Path)
    ensures Clear(d, p) <==> forall k :: 0 < k <= |p| ==> Get(d, p[..k]) == NoEntry || Get(d, p[..k]) == DirAt(None)
    decreases |p|
  {
    if |p| > 0 {
      forall k | 1 < k <= |p| ensures p[..k][0] == p[0] && p[..k][1..] == p[1..][..k - 1] {}
      assert p[..1] == [p[0]];
      if p[0] !in d {
        NothingInEmpty(p[1..], "");
      } else if d[p[0]].Dir? {
        var dirs, q := d[p[0]].dirs, p[1..];
        ClearIff(dirs, q);
        assert forall k :: 1 < k <= |p| ==> Get(d, p[..k]) == Get(dirs, q[..k - 1]);
        assert forall m :: 0 < m <= |q| ==> Get(dirs, q[..m]) == Get(d, p[..m + 1]);
      } else {
        assert Get(d, p[..1]).FileAt?;
      }
    }
  }

  /**
   Registering succeeds exactly when the way is free, and the path names nothing yet or may be overwritten. A file
   is hit exactly when it is what a plain walk meets first.
   */
  lemma CanRegisterIff(d: Dict, p: Path, overwrite: bool)
    requires |p| > 0
    ensures CanRegister(d, p, overwrite) <==> WayIsFree(d, p) && (overwrite || Get(d, p) == NoEntry)
    ensures HitsFile(d, Front(p)) <==> exists k :: FirstFile(d, p, k)
  {
    hide Clear, Get, HitsFile;
    var front := Front(p);
    assert p == front + [Last(p)];
    assert forall k :: 0 <= k < |p| ==> front[..k] == p[..k];
    ClearIff(d, front);
    if Clear(d, front) { BelowIsGet(d, front, Last(p)); }
    HitsFileIff(d, front);
    if HitsFile(d, front) {
      var k :| FirstFile(d, front + [""], k);
      assert forall j :: 0 <= j < |p| ==> (front + [""])[..j] == p[..j];
      assert FirstFile(d, p, k);
    }
    if k :| FirstFile(d, p, k) {
      assert forall j :: 0 <= j < |p| ==> (front + [""])[..j] == p[..j];
      assert FirstFile(d, front + [""], k);
    }
  }

  /** Above `p`, at length `k`, is a file, and above that are plain directories. */
  predicate FirstFile(d: Dict, p: Path, k: int) {
    0 < k < |p| && Get(d, p[..k]).FileAt? && forall j :: 0 < j < k ==> Get(d, p[..j]) == DirAt(None)
  }

  lemma {:induction false} HitsFileIff(d: Dict, p: Path)
    ensures HitsFile(d, p) <==> exists k :: FirstFile(d, p + [""], k)
    decreases |p|
  {
    var w := p + [""];
    if |p| > 0 {
      assert w[..1] == [p[0]] && w[1..] == p[1..] + [""];
      forall k | 1 < k <= |w| ensures w[..k][0] == p[0] && w[..k][1..] == w[1..][..k - 1] {}
      if p[0] !in d {
        NoFileInEmpty(p[1..]);
        assert Get(d, w[..1]) == NoEntry;
      } else if d[p[0]].File? {
        assert FirstFile(d, w, 1);
      } else if d[p[0]].list.Some? {
        assert Get(d, w[..1]) != DirAt(None);
      } else {
        var dirs, v := d[p[0]].dirs, w[1..];
        HitsFileIff(dirs, p[1..]);
        assert forall k :: 1 < k <= |w| ==> Get(d, w[..k]) == Get(dirs, v[..k - 1]);
        assert forall m :: 0 < m <= |v| ==> Get(dirs, v[..m]) == Get(d, w[..m + 1]);
        if k :| FirstFile(dirs, v, k) { assert FirstFile(d, w, k + 1); }
        if k :| FirstFile(d, w, k) {
          assert Get(d, w[..1]) == DirAt(None);
          assert FirstFile(dirs, v, k - 1);
        }
      }
    }
  }

  lemma {:induction false} NoFileInEmpty(p: Path)
    ensures !HitsFile(map[], p)
  {
    if |p| > 0 { NoFileInEmpty(p[1..]); }
  }

  /**
   How a lookup ends, case by case: behind a file that comes first; in what a callback lists, if its directory comes
   first; or, on a free way, at what the path names.
   */
  lemma LookupEnds(d: Dict, p: Path, dynamic: (Callback, Path) -> Option<Dict>, k: nat)
    requires |p| > 0
    ensures FirstFile(d, p, k) ==> Answer(d, p, dynamic) == KeyError
    ensures 0 < k < |p| && Get(d, p[..k]) == NoEntry && (forall j :: 0 < j < k ==> Get(d, p[..j]) == DirAt(None)) ==>
              Answer(d, p, dynamic) == RuntimeError
    ensures WayIsFree(d, p) && Get(d, p) == NoEntry ==> Answer(d, p, dynamic) == RuntimeError
    ensures (forall j :: 0 < j < |p| ==> Get(d, p[..j]) == DirAt(None)) && Get(d, p) != NoEntry ==>
              Answer(d, p, dynamic) == Done
    ensures 0 < k < |p| && Get(d, p[..k]).DirAt? && Get(d, p[..k]).list.Some?
            && (forall j :: 0 < j < k ==> Get(d, p[..j]) == DirAt(None)) ==>
              Answer(d, p, dynamic) ==
              match dynamic(Get(d, p[..k]).list.value, p[..|p| - 1])
              case None => TypeError
              case Some(listed) => if p[|p| - 1] in listed then Done else RuntimeError
  {
    hide Get;
    assert p[..|p|] == p;
    if WayIsFree(d, p) && Get(d, p) == NoEntry { Missing(d, p, dynamic); }
    var n := Stop(d, p, 1);
  }
}
