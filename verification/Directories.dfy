/** Directories as finite maps from names to inode numbers: dirlookup and dirlink over the file layer. */
module Directories {
  import opened Outcomes
  import opened Bytes
  import opened FsContent
  import opened FsLayout
  import opened FileSystems

  const T_DIR: nat := 1
  const DIRSIZ: nat := 14
  const DIRENT: nat := 16            // sizeof(struct dirent): a 16-bit inode number, then the name
  const USHORT_LIMIT: nat := 65536

  // ----- Names

  /** What strncmp(_, _, DIRSIZ) looks at: the characters before the first NUL, at most DIRSIZ of them. */
  function Canon(s: seq<byte>): (n: seq<byte>)
    ensures |n| <= DIRSIZ && |n| <= |s| && n == s[..|n|] && 0 !in n
    ensures |n| < |s| && |n| < DIRSIZ ==> s[|n|] == 0
  {
    CanonUpTo(s, DIRSIZ)
  }

  function CanonUpTo(s: seq<byte>, limit: nat): (n: seq<byte>)
    ensures |n| <= limit && |n| <= |s| && n == s[..|n|] && 0 !in n
    ensures |n| < |s| && |n| < limit ==> s[|n|] == 0
    decreases limit
  {
    if limit == 0 || s == [] || s[0] == 0 then [] else [s[0]] + CanonUpTo(s[1..], limit - 1)
  }

  /** The name as strncpy stores it: cut to DIRSIZ and padded with NULs. */
  function Padded(s: seq<byte>): (p: seq<byte>)
    ensures |p| == DIRSIZ
  {
    Canon(s) + seq(DIRSIZ - |Canon(s)|, i => 0)
  }

  /** Stored names compare as they were given. */
  lemma CanonOfPadded(s: seq<byte>)
    ensures Canon(Padded(s)) == Canon(s)
  {
    CanonStops(Canon(s), seq(DIRSIZ - |Canon(s)|, i => 0), DIRSIZ);
  }

  lemma {:induction false} CanonStops(n: seq<byte>, rest: seq<byte>, limit: nat)
    requires 0 !in n && |n| <= limit && (|n| == limit || rest == [] || rest[0] == 0)
    ensures CanonUpTo(n + rest, limit) == n
  {
    if n == [] {
      assert n + rest == rest;
    } else {
      var s, tail := n + rest, n[1..];
      assert n[0] in n && s[0] == n[0];
      assert s[1..] == tail + rest;
      CanonStops(tail, rest, limit - 1);
      assert n == [n[0]] + tail;
    }
  }

  // ----- Entries

  datatype Dirent = Dirent(inum: nat, name: seq<byte>)

  function Read16(b: seq<byte>): nat
    requires |b| >= 2
  {
    var lo: nat, hi: nat := b[0], b[1];
    lo + 256 * hi
  }

  /** The bytes of an entry. */
  function DirentOf(b: seq<byte>): Dirent
    requires |b| == DIRENT
  {
    Dirent(Read16(b), Canon(b[2..]))
  }

  /** The entry that dirlink writes: the number cut to 16 bits, and the padded name. */
  function DirentBytes(name: seq<byte>, inum: nat): (b: seq<byte>)
    ensures |b| == DIRENT && DirentOf(b) == Dirent(inum % USHORT_LIMIT, Canon(name))
  {
    var cut := inum % USHORT_LIMIT;
    var lo: byte, hi: byte := cut % 256, cut / 256;
    var head: seq<byte>, tail := [lo, hi], Padded(name);
    CanonOfPadded(name);
    var b := head + tail;
    assert b[2..] == tail;
    b
  }

  /** The number comes first, its low byte in front, and then the name, filled up with NULs. */
  lemma DirentLayout(name: seq<byte>, inum: nat, k: nat)
    ensures var b := DirentBytes(name, inum);
            && b[0] == inum % 256 && b[1] == inum / 256 % 256
            && (k < DIRSIZ ==> b[2 + k] == if k < |Canon(name)| then Canon(name)[k] else 0)
  {
    CutByte(inum);
  }

  lemma CutByte(n: nat)
    ensures n % USHORT_LIMIT % 256 == n % 256 && n % USHORT_LIMIT / 256 == n / 256 % 256
  {
    assert n == USHORT_LIMIT * (n / USHORT_LIMIT) + n % USHORT_LIMIT;
    assert n == 256 * (256 * (n / USHORT_LIMIT) + n % USHORT_LIMIT / 256) + n % USHORT_LIMIT % 256;
  }

  /** The entries of a directory, in order. */
  function Entries(content: seq<byte>): (es: seq<Dirent>)
    ensures |es| == |content| / DIRENT
    ensures forall k :: 0 <= k < |es| ==> es[k] == DirentOf(content[k * DIRENT..k * DIRENT + DIRENT])
  {
    seq(|content| / DIRENT, k requires 0 <= k < |content| / DIRENT => DirentOf(content[k * DIRENT..k * DIRENT
      + DIRENT]))
  }

  /** Live entries have different names, and the file holds whole entries. */
  ghost predicate DirOk(content: seq<byte>) {
    |content| % DIRENT == 0 && Unique(Entries(content))
  }

  ghost predicate Unique(es: seq<Dirent>) {
    forall j, k :: 0 <= j < k < |es| && es[j].inum != 0 && es[k].inum != 0 ==> es[j].name != es[k].name
  }

  /** The map that a directory stands for. */
  function Bindings(es: seq<Dirent>): map<seq<byte>, nat> {
    if es == [] then map[]
    else
      var b := Bindings(es[1..]);
      if es[0].inum == 0 then b else b[es[0].name := es[0].inum]
  }

  /** A name is bound to n exactly when some live entry says so. */
  lemma {:induction false} BindingsMeaning(es: seq<Dirent>, name: seq<byte>)
    requires Unique(es)
    ensures name in Bindings(es) <==> exists k :: 0 <= k < |es| && es[k].inum != 0 && es[k].name == name
    ensures forall k :: 0 <= k < |es| && es[k].inum != 0 && es[k].name == name ==>
      name in Bindings(es) && Bindings(es)[name] == es[k].inum
  {
    if es != [] {
      var rest := es[1..];
      forall j, k | 0 <= j < k < |rest| && rest[j].inum != 0 && rest[k].inum != 0 ensures rest[j].name != rest[k].name {
        assert rest[j] == es[j + 1] && rest[k] == es[k + 1];
      }
      BindingsMeaning(rest, name);
      if k :| 0 <= k < |rest| && rest[k].inum != 0 && rest[k].name == name {
        assert es[k + 1] == rest[k];
      }
      forall k | 0 <= k < |es| && es[k].inum != 0 && es[k].name == name
        ensures name in Bindings(es) && Bindings(es)[name] == es[k].inum
      {
        if k > 0 {
          assert rest[k - 1] == es[k];
        }
      }
    }
  }

  /** Filling a free entry, or one at the end, adds one binding and touches no other. */
  lemma BindingAdded(es: seq<Dirent>, es': seq<Dirent>, k: nat, name: seq<byte>, n: nat)
    requires Unique(es) && k <= |es| && (k < |es| ==> es[k].inum == 0) && n != 0 && name !in Bindings(es)
    requires es' == if k < |es| then es[k := Dirent(n, name)] else es + [Dirent(n, name)]
    ensures Unique(es') && Bindings(es') == Bindings(es)[name := n]
  {
    BindingsMeaning(es, name);
    assert forall j :: 0 <= j < |es| && j != k ==> es'[j] == es[j];
    forall x: seq<byte>
      ensures x in Bindings(es') <==> x == name || x in Bindings(es)
      ensures x in Bindings(es') ==> Bindings(es')[x] == if x == name then n else Bindings(es)[x]
    {
      BindingsMeaning(es, x);
      BindingsMeaning(es', x);
      assert es'[k] == Dirent(n, name);
      if j :| 0 <= j < |es| && es[j].inum != 0 && es[j].name == x {
        assert es'[j] == es[j];
      }
    }
  }

  /** Writing a free entry with an inode number that is cut to zero binds nothing. */
  lemma NothingAdded(es: seq<Dirent>, es': seq<Dirent>, k: nat, name: seq<byte>)
    requires Unique(es) && k <= |es| && (k < |es| ==> es[k].inum == 0)
    requires es' == if k < |es| then es[k := Dirent(0, name)] else es + [Dirent(0, name)]
    ensures Unique(es') && Bindings(es') == Bindings(es)
  {
    assert forall j :: 0 <= j < |es| && j != k ==> es'[j] == es[j];
    forall x: seq<byte>
      ensures x in Bindings(es') <==> x in Bindings(es)
      ensures x in Bindings(es') ==> Bindings(es')[x] == Bindings(es)[x]
    {
      BindingsMeaning(es, x);
      BindingsMeaning(es', x);
      if j :| 0 <= j < |es| && es[j].inum != 0 && es[j].name == x {
        assert es'[j] == es[j];
      }
    }
  }

  // ----- The operations

  datatype Found = Found(inum: nat, off: nat)

  /** The first entry that binds name, from entry k on. */
  function Find(es: seq<Dirent>, name: seq<byte>, k: nat): (r: Option<Found>)
    decreases |es| - k
  {
    if k >= |es| then None
    else if es[k].inum != 0 && es[k].name == name then Some(Found(es[k].inum, k * DIRENT))
    else Find(es, name, k + 1)
  }

  lemma {:induction false} FindMeaning(es: seq<Dirent>, name: seq<byte>, k: nat)
    requires k <= |es|
    ensures Find(es, name, k).None? <==> forall j :: k <= j < |es| ==> !(es[j].inum != 0 && es[j].name == name)
    ensures Find(es, name, k).Some? ==> var f := Find(es, name, k).value;
      exists j :: k <= j < |es| && es[j].inum == f.inum != 0 && es[j].name == name && f.off == j * DIRENT
    decreases |es| - k
  {
    if k < |es| {
      FindMeaning(es, name, k + 1);
    }
  }

  /** dirlookup is lookup in the map. */
  lemma FindIsLookup(es: seq<Dirent>, name: seq<byte>)
    requires Unique(es)
    ensures Find(es, name, 0).Some? <==> name in Bindings(es)
    ensures Find(es, name, 0).Some? ==> Find(es, name, 0).value.inum == Bindings(es)[name] != 0
  {
    FindMeaning(es, name, 0);
    BindingsMeaning(es, name);
  }

  lemma EntryAt(content: seq<byte>, k: nat)
    requires |content| % DIRENT == 0 && k * DIRENT < |content|
    ensures k < |Entries(content)| && k * DIRENT + DIRENT <= |content|
    ensures Entries(content)[k] == DirentOf(content[k * DIRENT..k * DIRENT + DIRENT])
  {
  }

  /** readi of one entry, which always finds all of it. */
  method ReadEntry(fs: FileSystem, dp: nat, off: nat, ghost k: nat) returns (de: Dirent)
    requires fs.Valid() && dp < fs.sb.ninodes && fs.inode[dp].kind == T_DIR
    requires |fs.File(dp)| % DIRENT == 0 && off == k * DIRENT < |fs.File(dp)|
    modifies fs
    ensures unchanged(fs) && k < |Entries(fs.File(dp))| && de == Entries(fs.File(dp))[k]
  {
    EntryAt(fs.File(dp), k);
    var n, b := fs.Readi(dp, off, DIRENT);
    de := DirentOf(b);
  }

  /** dirlookup: where the name is bound and to what. */
  method Dirlookup(fs: FileSystem, dp: nat, name: seq<byte>) returns (r: Option<Found>)
    requires fs.Valid() && dp < fs.sb.ninodes && fs.inode[dp].kind == T_DIR && DirOk(fs.File(dp))
    modifies fs
    ensures unchanged(fs) && r == Find(Entries(fs.File(dp)), Canon(name), 0)
    ensures r.Some? <==> Canon(name) in Bindings(Entries(fs.File(dp)))
    ensures r.Some? ==> r.value.inum == Bindings(Entries(fs.File(dp)))[Canon(name)]
  {
    ghost var es := Entries(fs.File(dp));
    FindIsLookup(es, Canon(name));
    var off := 0;
    ghost var k := 0;
    while off < fs.inode[dp].size
      invariant unchanged(fs) && off == k * DIRENT && k <= |es|
      invariant Find(es, Canon(name), 0) == Find(es, Canon(name), k)
    {
      var de := ReadEntry(fs, dp, off, k);
      if de.inum != 0 && de.name == Canon(name) {
        return Some(Found(de.inum, off));
      }
      off := off + DIRENT;
      k := k + 1;
    }
    return None;
  }

  predicate NoneFree(es: seq<Dirent>) {
    forall j :: 0 <= j < |es| ==> es[j].inum != 0
  }

  /** Entry k is the first free one, or there is none and k is the end. */
  predicate FirstFree(es: seq<Dirent>, k: nat) {
    k <= |es| && NoneFree(es[..k]) && (k < |es| ==> es[k].inum == 0)
  }

  lemma OneMoreUsed(es: seq<Dirent>, k: nat, next: nat)
    requires k < |es| && NoneFree(es[..k]) && es[k].inum != 0 && next == k + 1
    ensures NoneFree(es[..next])
  {
  }

  /** The loop of dirlink: the first free entry, or the end of the directory. */
  method FreeEntry(fs: FileSystem, dp: nat, ghost content: seq<byte>) returns (off: nat, ghost k: nat)
    requires fs.Valid() && dp < fs.sb.ninodes && fs.inode[dp].kind == T_DIR && content == fs.File(dp) && DirOk(content)
    modifies fs
    ensures unchanged(fs) && off == k * DIRENT <= |content| && FirstFree(Entries(content), k)
  {
    off, k := 0, 0;
    ghost var es := Entries(content);
    while off < fs.inode[dp].size
      invariant unchanged(fs) && off == k * DIRENT && k <= |es| && NoneFree(es[..k])
    {
      var de := ReadEntry(fs, dp, off, k);
      if de.inum == 0 {
        return;
      }
      ghost var next := k + 1;
      OneMoreUsed(es, k, next);
      off := off + DIRENT;
      k := next;
    }
  }

  lemma EntryWrittenAt(content: seq<byte>, k: nat, name: seq<byte>, inum: nat)
    requires |content| % DIRENT == 0 && k * DIRENT <= |content|
    ensures var content' := Splice(content, k * DIRENT, DirentBytes(name, inum));
            var es, de := Entries(content), Dirent(inum % USHORT_LIMIT, Canon(name));
            && |content'| % DIRENT == 0 && k <= |es|
            && Entries(content') == if k < |es| then es[k := de] else es + [de]
  {
    var b := DirentBytes(name, inum);
    var content' := Splice(content, k * DIRENT, b);
    WholeEntries(content, k, b);
    forall j | 0 <= j < |Entries(content')|
      ensures Entries(content')[j] == if j == k then DirentOf(b) else Entries(content)[j]
    {
      SliceOfSplice(content, k, b, j);
    }
  }

  lemma WholeEntries(content: seq<byte>, k: nat, b: seq<byte>)
    requires |content| % DIRENT == 0 && k * DIRENT <= |content| && |b| == DIRENT
    ensures |Splice(content, k * DIRENT, b)| % DIRENT == 0 && k <= |content| / DIRENT
    ensures |Splice(content, k * DIRENT, b)| / DIRENT == (if k < |content| / DIRENT then |content| / DIRENT else k + 1)
  {
  }

  lemma SliceOfSplice(content: seq<byte>, k: nat, b: seq<byte>, j: nat)
    requires |content| % DIRENT == 0 && k * DIRENT <= |content| && |b| == DIRENT
    requires j * DIRENT + DIRENT <= |Splice(content, k * DIRENT, b)|
    ensures j != k ==> j * DIRENT + DIRENT <= |content|
    ensures Splice(content, k * DIRENT, b)[j * DIRENT..j * DIRENT + DIRENT] ==
            if j == k then b else content[j * DIRENT..j * DIRENT + DIRENT]
  {
    var lo, off := j * DIRENT, k * DIRENT;
    if j < k {
      SliceBefore(content, off, b, lo);
    } else if j == k {
      SliceAt(content, off, b);
    } else {
      SliceBehind(content, off, b, lo);
    }
  }

  lemma SliceBefore(content: seq<byte>, off: nat, b: seq<byte>, lo: nat)
    requires off <= |content| && |b| == DIRENT && lo + DIRENT <= off
    ensures Splice(content, off, b)[lo..lo + DIRENT] == content[lo..lo + DIRENT]
  {
    var out := Splice(content, off, b);
    assert forall i :: 0 <= i < off ==> out[i] == content[i];
  }

  lemma SliceAt(content: seq<byte>, off: nat, b: seq<byte>)
    requires off <= |content| && |b| == DIRENT
    ensures Splice(content, off, b)[off..off + DIRENT] == b
  {
  }

  lemma SliceBehind(content: seq<byte>, off: nat, b: seq<byte>, lo: nat)
    requires |b| == DIRENT && off + DIRENT <= lo && off <= |content| && lo + DIRENT <= |Splice(content, off, b)|
    ensures lo + DIRENT <= |content| && Splice(content, off, b)[lo..lo + DIRENT] == content[lo..lo + DIRENT]
  {
    var out := Splice(content, off, b);
    assert |out| == |content|;
    assert forall i :: off + DIRENT <= i < |out| ==> out[i] == content[i];
  }

  /**
   * dirlink: -1 and no change if the name is bound; otherwise one more binding, and no other file changes. It halts
   * exactly if there is no free entry, and the directory cannot grow: it is of the largest size, or the disk is full.
   */
  method Dirlink(fs: FileSystem, dp: nat, name: seq<byte>, inum: nat) returns (r: Outcome<int>)
    requires fs.Valid() && dp < fs.sb.ninodes && fs.inode[dp].kind == T_DIR && DirOk(fs.File(dp))
    modifies fs
    ensures Canon(name) in Bindings(Entries(old(fs.File(dp)))) ==> r == Done(-1) && unchanged(fs)
    ensures Canon(name) !in Bindings(Entries(old(fs.File(dp)))) ==>
      && (r.Panic? <==> LinkHalts(old(fs.File(dp)), old(fs.Free())))
      && (r.Done? ==>
            && r.value == 0 && fs.Valid() && DirOk(fs.File(dp)) && fs.Files() == old(fs.Files())[dp := fs.File(dp)]
            && Bindings(Entries(fs.File(dp))) ==
               Bound(Bindings(Entries(old(fs.File(dp)))), Canon(name), inum % USHORT_LIMIT))
  {
    ghost var content := fs.File(dp);
    var found := Dirlookup(fs, dp, name);
    if found.Some? {
      return Done(-1);
    }
    var off, k := FreeEntry(fs, dp, content);
    r := WriteEntry(fs, dp, name, inum, off, content, k);
  }

  /** The end of dirlink: the entry is written where there was none. */
  method WriteEntry(fs: FileSystem, dp: nat, name: seq<byte>, inum: nat, off: nat, ghost content: seq<byte>,
                    ghost k: nat)
    returns (r: Outcome<int>)
    requires fs.Valid() && dp < fs.sb.ninodes && fs.inode[dp].kind == T_DIR && content == fs.File(dp) && DirOk(content)
    requires Canon(name) !in Bindings(Entries(content)) && FirstFree(Entries(content), k)
    requires off == k * DIRENT <= |content|
    modifies fs
    ensures r.Panic? <==> LinkHalts(content, old(fs.Free()))
    ensures r.Done? ==>
      && r.value == 0 && fs.Valid() && DirOk(fs.File(dp)) && fs.Files() == old(fs.Files())[dp := fs.File(dp)]
      && Bindings(Entries(fs.File(dp))) == Bound(Bindings(Entries(content)), Canon(name), inum % USHORT_LIMIT)
  {
    LinkHaltsAt(content, off, k, fs.Free());
    LinkBinds(content, k, name, inum);
    var de := DirentBytes(name, inum);
    assert de[..DIRENT] == de;
    var n :- fs.Writei(dp, de, off, DIRENT);
    if n != DIRENT {
      return Panic;
    }
    assert fs.Files()[dp] == fs.File(dp);
    return Done(0);
  }

  /** With so many blocks free a directory has no room for one more entry, neither in it nor at its end. */
  predicate LinkHalts(content: seq<byte>, free: nat) {
    NoneFree(Entries(content)) &&
    (|content| + DIRENT > MAXFILE * BSIZE || free < NewBlocks(|content|, |content|, DIRENT))
  }

  /** Only an entry at the end needs room. */
  lemma LinkHaltsAt(content: seq<byte>, off: nat, k: nat, free: nat)
    requires DirOk(content) && off == k * DIRENT <= |content| <= MAXFILE * BSIZE && FirstFree(Entries(content), k)
    ensures LinkHalts(content, free) <==> off + DIRENT > MAXFILE * BSIZE || free < NewBlocks(|content|, off, DIRENT)
  {
    var es := Entries(content);
    if k < |es| {
      assert off + DIRENT <= |content|;
    } else {
      assert es[..k] == es;
      assert off == |content|;
    }
  }

  /** An inode number that is cut to zero makes a free entry. */
  function Bound(b: map<seq<byte>, nat>, name: seq<byte>, n: nat): map<seq<byte>, nat> {
    if n == 0 then b else b[name := n]
  }

  lemma LinkBinds(content: seq<byte>, k: nat, name: seq<byte>, inum: nat)
    requires DirOk(content) && k * DIRENT <= |content| && Canon(name) !in Bindings(Entries(content))
    requires k < |Entries(content)| ==> Entries(content)[k].inum == 0
    ensures var content' := Splice(content, k * DIRENT, DirentBytes(name, inum));
            && DirOk(content')
            && Bindings(Entries(content')) == Bound(Bindings(Entries(content)), Canon(name), inum % USHORT_LIMIT)
  {
    EntryWrittenAt(content, k, name, inum);
    var es' := Entries(Splice(content, k * DIRENT, DirentBytes(name, inum)));
    if inum % USHORT_LIMIT == 0 {
      NothingAdded(Entries(content), es', k, Canon(name));
    } else {
      BindingAdded(Entries(content), es', k, Canon(name), inum % USHORT_LIMIT);
    }
  }

  /** A lookup then finds the inode that was linked exactly if its number is an inode number of 16 bits. */
  lemma LinkedIsFoundExactlyWhen(content: seq<byte>, k: nat, name: seq<byte>, inum: nat, content': seq<byte>)
    requires DirOk(content) && k * DIRENT <= |content| && Canon(name) !in Bindings(Entries(content))
    requires k < |Entries(content)| ==> Entries(content)[k].inum == 0
    requires content' == Splice(content, k * DIRENT, DirentBytes(name, inum))
    ensures Finds(content', Canon(name), inum) <==> 0 < inum < USHORT_LIMIT
  {
    LinkBinds(content, k, name, inum);
    FoundAsBound(Bindings(Entries(content)), Entries(content'), Canon(name), inum);
  }

  predicate Finds(content: seq<byte>, name: seq<byte>, inum: nat) {
    var r := Find(Entries(content), name, 0);
    r.Some? && r.value.inum == inum
  }

  lemma FoundAsBound(b: map<seq<byte>, nat>, es: seq<Dirent>, name: seq<byte>, inum: nat)
    requires Unique(es) && Bindings(es) == Bound(b, name, inum % USHORT_LIMIT) && name !in b
    ensures var r := Find(es, name, 0); r.Some? && r.value.inum == inum <==> 0 < inum < USHORT_LIMIT
  {
    FindIsLookup(es, name);
  }
}
