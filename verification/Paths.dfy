/** Path walking: namex as a fold of directory lookup over the elements of a path. */
module Paths {
  import opened Outcomes
  import opened Bytes
  import opened FsContent
  import opened FsLayout
  import opened FileSystems
  import opened Directories

  const SLASH: byte := 47
  const ROOTINO: nat := 1

  // ----- Elements of a path

  function SkipSlashes(p: seq<byte>): (q: seq<byte>)
    ensures |q| <= |p| && (q == [] || q[0] != SLASH)
  {
    if p != [] && p[0] == SLASH then SkipSlashes(p[1..]) else p
  }

  /** The characters before the first slash. */
  function Head(p: seq<byte>): (h: seq<byte>)
    ensures |h| <= |p| && h == p[..|h|] && SLASH !in h
    ensures |h| < |p| ==> p[|h|] == SLASH
  {
    if p == [] || p[0] == SLASH then [] else [p[0]] + Head(p[1..])
  }

  /** The non-empty pieces between slashes, each cut to DIRSIZ characters. */
  function Elements(path: seq<byte>): seq<seq<byte>>
    decreases |path|
  {
    var p := SkipSlashes(path);
    if p == [] then [] else [Cut(Head(p))] + Elements(p[|Head(p)|..])
  }

  function Cut(s: seq<byte>): seq<byte> {
    if |s| >= DIRSIZ then s[..DIRSIZ] else s
  }

  lemma {:induction false} ElementsSkip(path: seq<byte>)
    ensures Elements(SkipSlashes(path)) == Elements(path)
  {
    SkipTwice(path);
  }

  lemma SkipTwice(p: seq<byte>)
    ensures SkipSlashes(SkipSlashes(p)) == SkipSlashes(p)
  {
  }

  /** Joining good elements with slashes and splitting again gives them back. */
  predicate GoodElement(e: seq<byte>) {
    0 < |e| <= DIRSIZ && SLASH !in e
  }

  function Joined(es: seq<seq<byte>>): seq<byte> {
    if es == [] then [] else [SLASH] + es[0] + Joined(es[1..])
  }

  lemma {:induction false} HeadOf(e: seq<byte>, rest: seq<byte>)
    requires SLASH !in e && (rest == [] || rest[0] == SLASH)
    ensures Head(e + rest) == e
  {
    if e == [] {
      assert e + rest == rest;
    } else {
      assert (e + rest)[1..] == e[1..] + rest;
      assert e[0] in e;
      HeadOf(e[1..], rest);
    }
  }

  lemma {:induction false} ElementsOfJoined(es: seq<seq<byte>>)
    requires forall i :: 0 <= i < |es| ==> GoodElement(es[i])
    ensures Elements(Joined(es)) == es
  {
    if es != [] {
      var rest := Joined(es[1..]);
      var p := es[0] + rest;
      assert Joined(es) == [SLASH] + p;
      assert es[0][0] in es[0];
      assert p[0] == es[0][0];
      assert Joined(es)[1..] == p;
      assert SkipSlashes(p) == p;
      HeadOf(es[0], rest);
      assert p[|es[0]|..] == rest;
      assert SkipSlashes(Joined(es)) == p && Cut(es[0]) == es[0];
      ElementsOfJoined(es[1..]);
    }
  }

  // ----- What a path is

  function Slashes(n: nat): seq<byte> {
    if n == 0 then [] else [SLASH] + Slashes(n - 1)
  }

  /** Names with runs of slashes before, between and behind them. */
  function Laid(names: seq<seq<byte>>, gaps: seq<nat>): seq<byte>
    requires |gaps| == |names| + 1
  {
    if names == [] then Slashes(gaps[0]) else Slashes(gaps[0]) + (names[0] + Laid(names[1..], gaps[1..]))
  }

  /** The names are names of any length, and there is at least one slash between two of them. */
  predicate LaidOk(names: seq<seq<byte>>, gaps: seq<nat>) {
    && |gaps| == |names| + 1 && (forall i :: 0 <= i < |names| ==> names[i] != [] && SLASH !in names[i])
    && forall i :: 1 <= i < |names| ==> gaps[i] > 0
  }

  function Cuts(names: seq<seq<byte>>): seq<seq<byte>> {
    if names == [] then [] else [Cut(names[0])] + Cuts(names[1..])
  }

  lemma {:induction false} SkipOfSlashes(n: nat, p: seq<byte>)
    ensures SkipSlashes(Slashes(n) + p) == SkipSlashes(p)
  {
    if n == 0 {
      assert Slashes(n) + p == p;
    } else {
      assert (Slashes(n) + p)[1..] == Slashes(n - 1) + p;
      SkipOfSlashes(n - 1, p);
    }
  }

  lemma LaidStarts(names: seq<seq<byte>>, gaps: seq<nat>)
    requires LaidOk(names, gaps) && (names != [] ==> gaps[0] > 0)
    ensures var p := Laid(names, gaps); p == [] || p[0] == SLASH
  {
  }

  /** The elements of a path are its names, each cut to DIRSIZ, however many slashes there are. */
  lemma {:induction false} ElementsOfLaid(names: seq<seq<byte>>, gaps: seq<nat>)
    requires LaidOk(names, gaps)
    ensures Elements(Laid(names, gaps)) == Cuts(names)
    decreases |names|
  {
    if names == [] {
      SkipOfSlashes(gaps[0], []);
      assert Slashes(gaps[0]) + [] == Slashes(gaps[0]);
    } else {
      var rest := Laid(names[1..], gaps[1..]);
      var p := names[0] + rest;
      LaidStarts(names[1..], gaps[1..]);
      SkipOfSlashes(gaps[0], p);
      assert names[0][0] in names[0] && p[0] == names[0][0];
      HeadOf(names[0], rest);
      assert p[|names[0]|..] == rest;
      ElementsOfLaid(names[1..], gaps[1..]);
    }
  }

  /** What is skipped is slashes, and all of those in front. */
  lemma {:induction false} SlashesInFront(p: seq<byte>) returns (n: nat)
    ensures p == Slashes(n) + SkipSlashes(p)
  {
    if p != [] && p[0] == SLASH {
      var m := SlashesInFront(p[1..]);
      n := m + 1;
      assert p == [SLASH] + p[1..];
    } else {
      n := 0;
      assert Slashes(0) + p == p;
    }
  }

  /** Every path is made of names and slashes in this way. */
  lemma {:induction false} EveryPathIsLaid(path: seq<byte>) returns (names: seq<seq<byte>>, gaps: seq<nat>)
    ensures LaidOk(names, gaps) && path == Laid(names, gaps)
    ensures names != [] && path[0] == SLASH ==> gaps[0] > 0
    decreases |path|
  {
    var n := SlashesInFront(path);
    var p := SkipSlashes(path);
    if p == [] {
      names, gaps := [], [n];
    } else {
      var h := Head(p);
      var rest := p[|h|..];
      var more, runs := EveryPathIsLaid(rest);
      names, gaps := [h] + more, [n] + runs;
      assert names[1..] == more && gaps[1..] == runs;
      assert p == h + rest;
    }
  }

  lemma OneSlash(p: seq<byte>, q: seq<byte>)
    requires q == [SLASH] + p
    ensures Elements(q) == Elements(p)
  {
    assert q[1..] == p;
  }

  lemma FirstName(p: seq<byte>, h: seq<byte>, rest: seq<byte>)
    requires p == h + rest && h != [] && SLASH !in h && (rest == [] || rest[0] == SLASH)
    ensures Elements(p) == [Cut(h)] + Elements(rest)
  {
    HeadOf(h, rest);
    assert p[0] == h[0] && h[0] in h;
    assert p[|h|..] == rest;
  }

  /** The same for a path with text from a slash on behind it. */
  lemma FirstNameBefore(a: seq<byte>, h: seq<byte>, c: seq<byte>, s: seq<byte>)
    requires a == h + c && h != [] && SLASH !in h && (c == [] || c[0] == SLASH) && s != [] && s[0] == SLASH
    ensures Elements(a + s) == [Cut(h)] + Elements(c + s)
  {
    assert a + s == h + (c + s);
    assert (c + s)[0] == if c == [] then s[0] else c[0];
    FirstName(a + s, h, c + s);
  }

  /** A slash more beside a slash changes no element. */
  lemma {:induction false} SlashDoubled(a: seq<byte>, b: seq<byte>)
    ensures Elements(a + ([SLASH] + b)) == Elements(a + ([SLASH, SLASH] + b))
    decreases |a|
  {
    var s, t := [SLASH] + b, [SLASH, SLASH] + b;
    if a == [] {
      assert a + s == s && a + t == t;
      OneSlash(s, t);
    } else if a[0] == SLASH {
      SlashDoubled(a[1..], b);
      OneSlash(a[1..] + s, a + s);
      OneSlash(a[1..] + t, a + t);
    } else {
      var h := Head(a);
      var c := a[|h|..];
      assert a == h + c;
      FirstNameBefore(a, h, c, s);
      FirstNameBefore(a, h, c, t);
      SlashDoubled(c, b);
    }
  }

  /** Every element is a good one. */
  lemma {:induction false} ElementsAreGood(path: seq<byte>)
    ensures forall i :: 0 <= i < |Elements(path)| ==> GoodElement(Elements(path)[i])
    decreases |path|
  {
    var p := SkipSlashes(path);
    if p != [] {
      ElementsAreGood(p[|Head(p)|..]);
    }
  }

  /** Moves past slashes. */
  method PastSlashes(path: seq<byte>, start: nat) returns (at: nat)
    requires start <= |path|
    ensures start <= at <= |path| && path[at..] == SkipSlashes(path[start..])
  {
    at := start;
    while at < |path| && path[at] == SLASH
      invariant start <= at <= |path| && SkipSlashes(path[at..]) == SkipSlashes(path[start..])
    {
      assert path[at..][1..] == path[at + 1..];
      at := at + 1;
    }
  }

  /** Moves past the characters of one element. */
  method PastName(path: seq<byte>, start: nat) returns (at: nat)
    requires start <= |path|
    ensures start <= at <= |path| && Head(path[start..]) == path[start..at]
  {
    at := start;
    while at < |path| && path[at] != SLASH
      invariant start <= at <= |path| && forall i :: start <= i < at ==> path[i] != SLASH
    {
      at := at + 1;
    }
    HeadOf(path[start..at], path[at..]);
    assert path[start..] == path[start..at] + path[at..];
  }

  /** skipelem: the first element and the path behind it, without leading slashes; None when there is no element. */
  method Skipelem(path: seq<byte>) returns (r: Option<(seq<byte>, seq<byte>)>)
    ensures r.None? <==> Elements(path) == []
    ensures r.Some? ==> IsNext(path, r.value.0, r.value.1)
  {
    var s := PastSlashes(path, 0);
    assert path[0..] == path;
    if s == |path| {
      return None;
    }
    var at := PastName(path, s);
    var len := at - s;
    var name := if len >= DIRSIZ then path[s..s + DIRSIZ] else path[s..at];
    CutSlice(path, s, at);
    var rest := PastSlashes(path, at);
    ghost var p, head, tail := path[s..], path[s..at], path[at..];
    assert p == head + tail;
    ElementsStep(path, p, head, tail, path[rest..]);
    return Some((name, path[rest..]));
  }

  lemma CutSlice(path: seq<byte>, s: nat, at: nat)
    requires s <= at <= |path|
    ensures Cut(path[s..at]) == if at - s >= DIRSIZ then path[s..s + DIRSIZ] else path[s..at]
  {
  }

  lemma ElementsStep(path: seq<byte>, p: seq<byte>, head: seq<byte>, tail: seq<byte>, rest: seq<byte>)
    requires p == SkipSlashes(path) && p != [] && head == Head(p) && p == head + tail && rest == SkipSlashes(tail)
    ensures Elements(path) == [Cut(head)] + Elements(rest)
    ensures rest == [] <==> Elements(rest) == []
  {
    assert p[|head|..] == tail;
    ElementsSkip(tail);
  }

  // ----- What a path means

  /** The file tree as path walking sees it: by inode number, the bindings of each directory. */
  type Tree = map<nat, map<seq<byte>, nat>>

  /** Walking down from inode i along the elements. */
  function Resolve(t: Tree, i: nat, es: seq<seq<byte>>): Option<nat>
    decreases |es|
  {
    if es == [] then Some(i)
    else if i in t && Canon(es[0]) in t[i] then Resolve(t, t[i][Canon(es[0])], es[1..])
    else None
  }

  /** Walking down to the last element but one; the last one need not exist. */
  function ResolveParent(t: Tree, i: nat, es: seq<seq<byte>>): Option<nat>
    decreases |es|
  {
    if es == [] || i !in t then None
    else if |es| == 1 then Some(i)
    else if Canon(es[0]) in t[i] then ResolveParent(t, t[i][Canon(es[0])], es[1..])
    else None
  }

  /** namei is a lookup of the last element in what nameiparent finds. */
  lemma {:induction false} LookupInParent(t: Tree, i: nat, es: seq<seq<byte>>)
    requires es != []
    ensures ResolveParent(t, i, es).Some? ==> ResolveParent(t, i, es).value in t
    ensures var parent, last := ResolveParent(t, i, es), Canon(es[|es| - 1]);
            Resolve(t, i, es) ==
            if parent.Some? && last in t[parent.value] then Some(t[parent.value][last]) else None
    decreases |es|
  {
    if i in t && |es| > 1 && Canon(es[0]) in t[i] {
      LookupInParent(t, t[i][Canon(es[0])], es[1..]);
    }
  }

  /** Walking along two stretches of a path is walking along the whole. */
  /** One element is one lookup, and none is where one is. */
  lemma ResolveOne(t: Tree, i: nat, e: seq<byte>)
    ensures Resolve(t, i, []) == Some(i)
    ensures Resolve(t, i, [e]) == if i in t && Canon(e) in t[i] then Some(t[i][Canon(e)]) else None
  {
    assert [e][1..] == [];
  }

  lemma {:induction false} ResolveInTwo(t: Tree, i: nat, a: seq<seq<byte>>, b: seq<seq<byte>>)
    ensures Resolve(t, i, a + b) == if Resolve(t, i, a).Some? then Resolve(t, Resolve(t, i, a).value, b) else None
    decreases |a|
  {
    if a == [] {
      assert a + b == b;
    } else {
      assert (a + b)[1..] == a[1..] + b;
      if i in t && Canon(a[0]) in t[i] {
        ResolveInTwo(t, t[i][Canon(a[0])], a[1..], b);
      }
    }
  }

  // ----- namex

  /** The in-memory inodes of one process that walks paths: reference counts, and which inodes it has locked. */
  class Walker {
    const fs: FileSystem
    var refs: seq<nat>
    var locked: set<nat>
    var cwd: nat

    constructor (fs: FileSystem, refs: seq<nat>, cwd: nat)
      ensures this.fs == fs && this.refs == refs && this.cwd == cwd && locked == {}
    {
      this.fs, this.refs, this.cwd, locked := fs, refs, cwd, {};
    }

    ghost predicate IsDir(i: nat)
      reads fs
    {
      i < |fs.inode| && fs.inode[i].kind == T_DIR
    }

    /** The tree that the directories spell out. */
    ghost function TheTree(): (t: Tree)
      reads fs
      ensures forall i :: i in t <==> IsDir(i)
      ensures forall i :: i in t ==> i < |fs.inode| && t[i] == Bindings(Entries(fs.File(i)))
    {
      map i: nat | i < |fs.inode| && IsDir(i) :: Bindings(Entries(fs.File(i)))
    }

    /** t is the tree, every directory of it is in order, and the inodes in linked are allocated and have links. */
    ghost predicate Sees(t: Tree, linked: set<nat>)
      reads fs
    {
      && fs.Valid() && TheTree() == t
      && (forall i :: i in t ==> i < |fs.inode| && DirOk(fs.File(i)))
      && (forall i :: i in linked ==> Linked(i))
    }

    /** The inodes that have links. */
    ghost function TheLinked(): (s: set<nat>)
      reads fs
      ensures forall i :: i in s <==> Linked(i)
    {
      set i: nat | i < |fs.inode| && Linked(i)
    }

    /** Every directory is in order; every binding, like the root, leads to an allocated inode that has a link. */
    ghost predicate TreeOk()
      reads fs
    {
      Sees(TheTree(), TheLinked()) && Closed(TheTree(), TheLinked())
    }

    /** The process holds a reference to its current directory. */
    ghost predicate RefsOk(refs: seq<nat>)
      reads this`cwd, fs
    {
      |refs| == fs.sb.ninodes == |fs.inode| && cwd < |refs| && refs[cwd] >= 1 && fs.inode[cwd].kind != 0
    }

    ghost predicate Valid()
      reads this, fs
    {
      TreeOk() && RefsOk(refs)
    }

    ghost predicate Linked(i: nat)
      reads fs
    {
      i < |fs.inode| && fs.inode[i].nlink > 0 && fs.inode[i].kind != 0
    }

    /** Holding on to inode i, and iput will not free it: it is linked, or someone else has a reference too. */
    ghost predicate Safe(i: nat)
      reads this, fs
    {
      i < |refs| == |fs.inode| && fs.inode[i].kind != 0 && refs[i] >= 1 && (Linked(i) || refs[i] >= 2)
    }

    method Iget(i: nat)
      requires i < |refs|
      modifies this`refs
      ensures refs == old(refs)[i := old(refs[i]) + 1]
    {
      refs := refs[i := refs[i] + 1];
    }

    method Ilock(i: nat)
      requires i < |refs| == |fs.inode| && refs[i] >= 1 && fs.inode[i].kind != 0 && i !in locked
      modifies this`locked
      ensures locked == old(locked) + {i}
    {
      locked := locked + {i};
    }

    method Iunlock(i: nat)
      requires i < |refs| && refs[i] >= 1 && i in locked
      modifies this`locked
      ensures locked == old(locked) - {i}
    {
      locked := locked - {i};
    }

    /** iput where it does not free the inode. */
    method Iput(i: nat)
      requires Safe(i) && i !in locked
      modifies this`refs
      ensures refs == old(refs)[i := old(refs[i]) - 1]
    {
      refs := refs[i := refs[i] - 1];
    }

    method Iunlockput(i: nat)
      requires Safe(i) && i in locked
      modifies this`refs, this`locked
      ensures refs == old(refs)[i := old(refs[i]) - 1] && locked == old(locked) - {i}
    {
      Iunlock(i);
      Iput(i);
    }

    /** One reference more to inode i, and nothing else. */
    ghost predicate Took(refs0: seq<nat>, i: nat)
      reads this
    {
      i < |refs0| && refs == refs0[i := refs0[i] + 1]
    }

    /** On the way: the only reference taken is one to ip. */
    ghost predicate Walking(refs0: seq<nat>, ip: nat)
      reads this, fs
    {
      RefsOk(refs0) && locked == {} && Took(refs0, ip) && Safe(ip)
    }

    /** One round of namex at inode ip; last says that the walk is to end at the parent of name. */
    method Step(ip: nat, name: seq<byte>, last: bool, ghost refs0: seq<nat>, ghost t: Tree, ghost linked: set<nat>)
      returns (s: Stride)
      requires Sees(t, linked) && Closed(t, linked) && Walking(refs0, ip)
      modifies this`refs, this`locked, fs
      ensures unchanged(fs) && locked == {}
      ensures s == Fail ==> refs == refs0 && (ip !in t || (!last && Canon(name) !in t[ip]))
      ensures s == Here ==> last && ip in t && Took(refs0, ip)
      ensures s.Down? ==>
        !last && ip in t && Canon(name) in t[ip] && s.next == t[ip][Canon(name)] && Walking(refs0, s.next)
    {
      Ilock(ip);
      if fs.inode[ip].kind != T_DIR {
        GiveBack(ip, refs0);
        return Fail;
      }
      if last {
        Iunlock(ip);
        return Here;
      }
      s := Descend(ip, name, refs0, t, linked);
    }

    /** Looks the name up in the locked directory, and gives the directory back. */
    method Descend(ip: nat, name: seq<byte>, ghost refs0: seq<nat>, ghost t: Tree, ghost linked: set<nat>)
      returns (s: Stride)
      requires Sees(t, linked) && Closed(t, linked) && RefsOk(refs0) && locked == {ip} && Took(refs0, ip) && Safe(ip)
        && ip in t
      modifies this`refs, this`locked, fs
      ensures unchanged(fs) && locked == {} && s != Here
      ensures s == Fail ==> refs == refs0 && Canon(name) !in t[ip]
      ensures s.Down? ==> Canon(name) in t[ip] && s.next == t[ip][Canon(name)] && Walking(refs0, s.next)
    {
      var found := Dirlookup(fs, ip, name);
      if found.None? {
        GiveBack(ip, refs0);
        return Fail;
      }
      var next := found.value.inum;
      assert t[ip][Canon(name)] in linked && Linked(next);
      HandOn(ip, next, refs0, linked);
      return Down(next);
    }

    /** Unlocks the inode; the reference taken is given back. */
    method GiveBack(ip: nat, ghost refs0: seq<nat>)
      requires locked == {ip} && Took(refs0, ip) && Safe(ip)
      modifies this`refs, this`locked
      ensures refs == refs0 && locked == {}
    {
      Iunlockput(ip);
    }

    /** Steps down: the reference taken is now one to next, and nothing is locked. */
    method HandOn(ip: nat, next: nat, ghost refs0: seq<nat>, ghost linked: set<nat>)
      requires RefsOk(refs0) && locked == {ip} && Took(refs0, ip) && Safe(ip) && Linked(next)
      modifies this`refs, this`locked
      ensures Walking(refs0, next)
    {
      Iget(next);
      Iunlockput(ip);
      assert refs == refs0[next := refs0[next] + 1];
    }

    /**
     * namex: the inode that the path (or its parent part) leads to, with exactly one new reference to it; or None, with
     * no reference kept. No lock is kept, and no file changes.
     */
    method Namex(path: seq<byte>, nameiparent: bool) returns (r: Option<nat>, name: seq<byte>)
      requires Valid() && locked == {}
      modifies this`refs, this`locked, fs
      ensures Valid() && unchanged(fs) && locked == {}
      ensures r == Target(TheTree(), if path != [] && path[0] == SLASH then ROOTINO
        else cwd, Elements(path), nameiparent)
      ensures nameiparent && r.Some? ==> Elements(path) != [] && name == Last(Elements(path))
      ensures if r.Some? then Took(old(refs), r.value) else refs == old(refs)
    {
      var ip: nat := if path != [] && path[0] == SLASH then ROOTINO else cwd;
      Iget(ip);
      r, name := WalkFrom(ip, path, nameiparent, old(refs), TheTree(), TheLinked());
    }

    /** The loop of namex, which starts with a reference to inode start. */
    method WalkFrom(start: nat, path: seq<byte>, nameiparent: bool, ghost refs0: seq<nat>, ghost t: Tree,
                    ghost linked: set<nat>)
      returns (r: Option<nat>, name: seq<byte>)
      requires Sees(t, linked) && Closed(t, linked) && Walking(refs0, start)
      modifies this`refs, this`locked, fs
      ensures unchanged(fs) && locked == {} && r == Target(t, start, Elements(path), nameiparent)
      ensures nameiparent && r.Some? ==> Elements(path) != [] && name == Last(Elements(path))
      ensures if r.Some? then Took(refs0, r.value) else refs == refs0
    {
      var ip, p := start, path;
      name := [];
      var e := Skipelem(p);
      ghost var es := Elements(path);
      ghost var goal, last := Target(t, start, es, nameiparent), Last(es);
      while e.Some?
        invariant unchanged(fs) && Walking(refs0, ip)
        invariant es == Elements(p) && (e.None? <==> es == []) && (e.Some? ==> IsNext(p, e.value.0, e.value.1))
        invariant goal == Target(t, ip, es, nameiparent) && (es != [] ==> last == Last(es) && Elements(path) != [])
        decreases |p|
      {
        TargetStep(t, ip, es, nameiparent);
        name, p := e.value.0, e.value.1;
        es := es[1..];
        var s := Step(ip, name, nameiparent && p == [], refs0, t, linked);
        match s {
          case Fail => return None, name;
          case Here => return Some(ip), name;
          case Down(next) =>
            ip := next;
            e := Skipelem(p);
        }
      }
      if nameiparent {
        DropLast(ip, refs0);
        return None, name;
      }
      return Some(ip), name;
    }

    /** The reference taken to an unlocked inode is given back. */
    method DropLast(ip: nat, ghost refs0: seq<nat>)
      requires locked == {} && Took(refs0, ip) && Safe(ip)
      modifies this`refs
      ensures refs == refs0
    {
      Iput(ip);
    }
  }

  /** Bindings lead to linked inodes only, and the root is one. */
  ghost predicate Closed(t: Tree, linked: set<nat>) {
    ROOTINO in linked && forall i, n :: i in t && n in t[i] ==> t[i][n] in linked
  }

  /** The last element, if there is one. */
  function Last(es: seq<seq<byte>>): seq<byte> {
    if es == [] then [] else es[|es| - 1]
  }

  datatype Stride = Fail | Here | Down(next: nat)

  /** Where namex is to go. */
  function Target(t: Tree, i: nat, es: seq<seq<byte>>, nameiparent: bool): Option<nat> {
    if nameiparent then ResolveParent(t, i, es) else Resolve(t, i, es)
  }

  /** One element of a walk. */
  lemma {:induction false} TargetStep(t: Tree, i: nat, es: seq<seq<byte>>, nameiparent: bool)
    requires es != []
    ensures Target(t, i, es, nameiparent) ==
            if i !in t then None
            else if nameiparent && |es| == 1 then Some(i)
            else if Canon(es[0]) in t[i] then Target(t, t[i][Canon(es[0])], es[1..], nameiparent)
            else None
    ensures Last(es) == if |es| == 1 then es[0] else Last(es[1..])
  {
  }

  /** name is the first element of path, and rest what is behind it. */
  ghost predicate IsNext(path: seq<byte>, name: seq<byte>, rest: seq<byte>) {
    && Elements(path) != [] && name == Elements(path)[0] && Elements(rest) == Elements(path)[1..]
    && |rest| < |path| && (rest == [] <==> |Elements(path)| == 1)
  }
}
