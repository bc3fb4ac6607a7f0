/** file.c over the file system: the open-file table, chunked writes, and the release of inodes. */
module OpenFiles {
  import opened Basics
  import opened Outcomes
  import opened Bytes
  import opened FsContent
  import opened FsFree
  import opened FsLayout
  import opened FsLog
  import opened FileSystems

  const MAXWRITE: nat := (MAXOPBLOCKS - 1 - 1 - 2) / 2 * 512

  const NFILE: nat := 100

  datatype Kind = FD_NONE | FD_PIPE | FD_INODE

  datatype OpenFile = OpenFile(kind: Kind, ref: nat, readable: bool, writable: bool, ip: nat, off: nat)

  /** An entry through which inode i is open. */
  predicate Opens(f: OpenFile, i: nat) {
    f.ref > 0 && f.kind == FD_INODE && f.ip == i
  }

  /** How many entries have inode i open. */
  function Openings(ftable: seq<OpenFile>, i: nat): nat {
    if ftable == [] then 0 else (if Opens(ftable[0], i) then 1 else 0) + Openings(ftable[1..], i)
  }

  lemma {:induction false} OpeningsUpdate(ftable: seq<OpenFile>, f: nat, x: OpenFile, i: nat)
    requires f < |ftable|
    ensures Openings(ftable[f := x], i) ==
      Openings(ftable, i) - (if Opens(ftable[f], i) then 1 else 0) + (if Opens(x, i) then 1 else 0)
    ensures Opens(ftable[f], i) ==> Openings(ftable, i) > 0
  {
    if f == 0 {
      assert ftable[f := x][1..] == ftable[1..];
    } else {
      assert ftable[f := x][1..] == ftable[1..][f - 1 := x];
      OpeningsUpdate(ftable[1..], f - 1, x, i);
    }
  }

  /** No inode has fewer references than openings. */
  ghost predicate RefsOk(ftable: seq<OpenFile>, refs: seq<nat>) {
    forall i :: 0 <= i < |refs| ==> Openings(ftable, i) <= refs[i]
  }

  /** An entry without references has no object. */
  predicate Settled(x: OpenFile) {
    x.ref == 0 ==> x.kind == FD_NONE
  }

  ghost predicate ClosedOk(ftable: seq<OpenFile>) {
    forall f {:trigger Settled(ftable[f])} :: 0 <= f < |ftable| ==> Settled(ftable[f])
  }

  lemma ClosedUpdate(ftable: seq<OpenFile>, f: nat, x: OpenFile)
    requires ClosedOk(ftable) && f < |ftable| && Settled(x)
    ensures ClosedOk(ftable[f := x])
  {
    var t := ftable[f := x];
    forall g | 0 <= g < |t| ensures Settled(t[g]) {
      assert Settled(ftable[g]);
    }
  }

  /** Every open inode-backed file has its offset within its file. */
  ghost predicate OffsetsOk(ftable: seq<OpenFile>, inodes: seq<Dinode>) {
    forall f :: 0 <= f < |ftable| && ftable[f].ref > 0 && ftable[f].kind == FD_INODE ==>
      ftable[f].ip < |inodes| && inodes[ftable[f].ip].kind != T_DEV && ftable[f].off <= inodes[ftable[f].ip].size
  }

  /** One inode has grown, perhaps. */
  lemma OffsetsKept(ftable: seq<OpenFile>, inodes: seq<Dinode>, inodes': seq<Dinode>, i: nat)
    requires OffsetsOk(ftable, inodes) && i < |inodes| == |inodes'| && inodes' == inodes[i := inodes'[i]]
    requires inodes'[i].kind == inodes[i].kind && inodes[i].size <= inodes'[i].size
    ensures OffsetsOk(ftable, inodes')
  {
  }

  lemma RefsKeepEntry(ftable: seq<OpenFile>, refs: seq<nat>, f: nat, x: OpenFile)
    requires RefsOk(ftable, refs) && f < |ftable| && forall i :: Opens(x, i) == Opens(ftable[f], i)
    ensures RefsOk(ftable[f := x], refs)
  {
    forall i | 0 <= i < |refs|
      ensures Openings(ftable[f := x], i) <= refs[i]
    {
      OpeningsUpdate(ftable, f, x, i);
    }
  }

  lemma RefsTakeEntry(ftable: seq<OpenFile>, refs: seq<nat>, f: nat, x: OpenFile)
    requires RefsOk(ftable, refs) && f < |ftable| && ftable[f].kind != FD_INODE && x.ip < |refs|
    ensures RefsOk(ftable[f := x], refs[x.ip := refs[x.ip] + 1])
  {
    var t, r := ftable[f := x], refs[x.ip := refs[x.ip] + 1];
    forall i | 0 <= i < |r|
      ensures Openings(t, i) <= r[i]
    {
      OpeningsUpdate(ftable, f, x, i);
    }
  }

  lemma RefsDropEntry(ftable: seq<OpenFile>, refs: seq<nat>, f: nat)
    requires RefsOk(ftable, refs) && f < |ftable| && ftable[f].ref > 0 && ftable[f].kind == FD_INODE
      && ftable[f].ip < |refs|
    ensures refs[ftable[f].ip] >= 1
    ensures forall i :: 0 <= i < |refs| ==>
              Openings(ftable[f := ftable[f].(ref := 0, kind := FD_NONE)], i) <= refs[i] - if i == ftable[f].ip then 1
                else 0
  {
    forall i | 0 <= i < |refs|
      ensures Opens(ftable[f], i) ==> refs[i] >= 1
      ensures Openings(ftable[f := ftable[f].(ref := 0, kind := FD_NONE)], i) <= refs[i] - if i == ftable[f].ip then 1
        else 0
    {
      OpeningsUpdate(ftable, f, ftable[f].(ref := 0, kind := FD_NONE), i);
    }
    assert Opens(ftable[f], ftable[f].ip);
  }

  lemma {:induction false} NotOpen(ftable: seq<OpenFile>, i: nat)
    requires Openings(ftable, i) == 0
    ensures forall f :: 0 <= f < |ftable| ==> !Opens(ftable[f], i)
  {
    if ftable != [] {
      NotOpen(ftable[1..], i);
    }
  }

  lemma {:induction false} NoOpenings(ftable: seq<OpenFile>)
    requires forall f :: 0 <= f < |ftable| ==> ftable[f].ref == 0
    ensures forall i :: Openings(ftable, i) == 0
  {
    if ftable != [] {
      NoOpenings(ftable[1..]);
    }
  }

  /** How many bytes filewrite gets into a file at offset off: all n, or as many whole chunks as fit. */
  function Accepted(off: nat, n: nat): (w: nat)
    requires off <= MAXFILE * BSIZE
    ensures w <= n && off + w <= MAXFILE * BSIZE
  {
    if off + n <= MAXFILE * BSIZE then n else (MAXFILE * BSIZE - off) / MAXWRITE * MAXWRITE
  }

  /** The loop of filewrite has written i bytes in whole chunks, or all of them. */
  predicate AtChunk(off: nat, n: nat, i: nat, chunks: nat) {
    i <= n && off + i <= MAXFILE * BSIZE && (i == n || i == chunks * MAXWRITE)
  }

  /** The next chunk has been written, or it does not fit. */
  predicate ChunkStep(off: nat, n: nat, i: nat, next: nat) {
    var n1 := if i < n then Min(n - i, MAXWRITE) else 0;
    next == if off + i + n1 > MAXFILE * BSIZE then i else i + n1
  }

  lemma StepTaken(off: nat, n: nat, i: nat, chunks: nat, count: nat, next: nat)
    requires AtChunk(off, n, i, chunks) && i < n && count == chunks + 1 && ChunkStep(off, n, i, next)
    ensures if next == i then off + i + Min(n - i, MAXWRITE) > MAXFILE * BSIZE else AtChunk(off, n, next, count)
  {
  }

  /** How many blocks the file of entry f has to gain before n bytes can be written at its offset. */
  ghost function Needs(ftable: seq<OpenFile>, files: seq<seq<byte>>, f: nat, n: nat): nat
    requires f < |ftable| && ftable[f].ip < |files|
  {
    NewBlocks(|files[ftable[f].ip]|, ftable[f].off, n)
  }

  /** src has been written at the offset of entry f, and has taken the blocks it needed from those that were free. */
  ghost predicate Progress(ftable: seq<OpenFile>, files: seq<seq<byte>>, free: int, f: nat, src: seq<byte>,
                           ftable': seq<OpenFile>, files': seq<seq<byte>>, free': int) {
    Wrote(ftable, files, ftable', files', f, src) && free' == free - Needs(ftable, files, f, |src|)
  }

  lemma ChunkWritten(ftable: seq<OpenFile>, files: seq<seq<byte>>, free: int, f: nat, src: seq<byte>, x: nat,
                     ftable': seq<OpenFile>, files': seq<seq<byte>>, free': int)
    requires f < |ftable| && ftable[f].ip < |files| && ftable[f].off <= |files[ftable[f].ip]| && x == |src|
    requires ftable' == ftable[f := ftable[f].(off := ftable[f].off + x)]
    requires files' == files[ftable[f].ip := Splice(files[ftable[f].ip], ftable[f].off, src[..x])]
    requires free' == free - NewBlocks(|files[ftable[f].ip]|, ftable[f].off, x)
    ensures Progress(ftable, files, free, f, src, ftable', files', free')
  {
    assert src[..x] == src;
  }

  /** What is written behind it needs what both need together, and no more. */
  lemma NeedsMore(ftable: seq<OpenFile>, files: seq<seq<byte>>, ftable': seq<OpenFile>, files': seq<seq<byte>>, f: nat,
                  src: seq<byte>, i: nat, m: nat, next: nat)
    requires Wrote(ftable, files, ftable', files', f, src) && i == |src| && next == i + m
    ensures ftable'[f].ip == ftable[f].ip < |files'|
    ensures Needs(ftable', files', f, m) == Needs(ftable, files, f, next) - Needs(ftable, files, f, i)
  {
    var size, off := |files[ftable[f].ip]|, ftable[f].off;
    assert |files'[ftable[f].ip]| == Max(size, off + i);
    NewBlocksSplit(size, off, i, m, next);
  }

  /** The chunk that fits is part of what is accepted, so that its blocks are among those needed. */
  lemma NextAccepted(ftable: seq<OpenFile>, files: seq<seq<byte>>, f: nat, n: nat, i: nat, chunks: nat, next: nat,
                     w: nat)
    requires f < |ftable| && ftable[f].ip < |files| && AtChunk(ftable[f].off, n, i, chunks) && i < n
    requires next == i + Min(n - i, MAXWRITE) && ftable[f].off + next <= MAXFILE * BSIZE
    requires w == Accepted(ftable[f].off, n)
    ensures Needs(ftable, files, f, next) <= Needs(ftable, files, f, w)
  {
    AcceptedBeyond(ftable[f].off, n, i, chunks, next);
  }

  lemma AcceptedBeyond(off: nat, n: nat, i: nat, chunks: nat, next: nat)
    requires AtChunk(off, n, i, chunks) && i < n && next == i + Min(n - i, MAXWRITE) && off + next <= MAXFILE * BSIZE
    ensures next <= Accepted(off, n)
  {
  }

  lemma ProgressMore(ftable: seq<OpenFile>, files: seq<seq<byte>>, free: int, f: nat, src: seq<byte>, i: nat, j: nat,
                     ftable': seq<OpenFile>, files': seq<seq<byte>>, free': int,
                     ftable'': seq<OpenFile>, files'': seq<seq<byte>>, free'': int)
    requires i <= j <= |src| && Progress(ftable, files, free, f, src[..i], ftable', files', free')
    requires Progress(ftable', files', free', f, src[i..j], ftable'', files'', free'')
    ensures Progress(ftable, files, free, f, src[..j], ftable'', files'', free'')
  {
    WroteTwice(ftable, files, ftable', files', ftable'', files'', f, src, i, j);
    NeedsMore(ftable, files, ftable', files', f, src[..i], i, j - i, j);
  }

  /** How a transaction of filewrite ends that is to write src. */
  ghost predicate ChunkDone(ftable: seq<OpenFile>, files: seq<seq<byte>>, free: int, f: nat, src: seq<byte>,
                            r: Outcome<int>, ftable': seq<OpenFile>, files': seq<seq<byte>>, free': int) {
    && f < |ftable| && ftable[f].ip < |files|
    && var fits := ftable[f].off + |src| <= MAXFILE * BSIZE;
       && (r.Panic? <==> fits && free < Needs(ftable, files, f, |src|))
       && (r.Done? ==> r.value == if fits then |src| else -1)
       && (r.Done? && !fits ==> ftable' == ftable && files' == files && free' == free)
       && (r.Done? && fits ==> Progress(ftable, files, free, f, src, ftable', files', free'))
  }

  /** How a round of filewrite's loop ends that began with i bytes written: at r.value, or at a full disk. */
  ghost predicate RoundDone(ftable: seq<OpenFile>, files: seq<seq<byte>>, free: int, f: nat, src: seq<byte>, n: nat,
                            i: nat, r: Outcome<nat>, ftable': seq<OpenFile>, files': seq<seq<byte>>, free': int) {
    && f < |ftable| && ftable[f].ip < |files| && ftable[f].off <= MAXFILE * BSIZE
    && (r.Panic? ==> free < Needs(ftable, files, f, Accepted(ftable[f].off, n)))
    && (r.Done? ==>
          && i <= r.value <= n <= |src| && ChunkStep(ftable[f].off, n, i, r.value)
          && Progress(ftable, files, free, f, src[..r.value], ftable', files', free'))
  }

  lemma RoundEnds(ftable0: seq<OpenFile>, files0: seq<seq<byte>>, free0: int, f: nat, src: seq<byte>,
                  n: nat, i: nat, chunks: nat, next: nat, ftable: seq<OpenFile>, files: seq<seq<byte>>, free: int,
                  x: Outcome<int>, r: Outcome<nat>, ftable': seq<OpenFile>, files': seq<seq<byte>>, free': int)
    requires i < n <= |src| && Progress(ftable0, files0, free0, f, src[..i], ftable, files, free)
    requires AtChunk(ftable0[f].off, n, i, chunks) && next == i + Min(n - i, MAXWRITE)
    requires ChunkDone(ftable, files, free, f, src[i..next], x, ftable', files', free')
    requires r == if x.Panic? then Panic else Done(if x.value < 0 then i else next)
    ensures RoundDone(ftable0, files0, free0, f, src, n, i, r, ftable', files', free')
  {
    if x.Panic? {
      TooFew(ftable0, files0, free0, f, src, i, ftable, files, free, n, chunks, next);
    } else if x.value >= 0 {
      ProgressMore(ftable0, files0, free0, f, src, i, next, ftable, files, free, ftable', files', free');
    }
  }

  /** If the next chunk does not find the blocks it needs, there were not enough for all that is accepted. */
  lemma TooFew(ftable: seq<OpenFile>, files: seq<seq<byte>>, free: int, f: nat, src: seq<byte>, i: nat,
               ftable': seq<OpenFile>, files': seq<seq<byte>>, free': int, n: nat, chunks: nat, next: nat)
    requires i < n <= |src| && Progress(ftable, files, free, f, src[..i], ftable', files', free')
    requires AtChunk(ftable[f].off, n, i, chunks) && next == i + Min(n - i, MAXWRITE)
    requires ftable[f].off + next <= MAXFILE * BSIZE
    requires ftable'[f].ip < |files'| && free' < Needs(ftable', files', f, next - i)
    ensures free < Needs(ftable, files, f, Accepted(ftable[f].off, n))
  {
    NeedsMore(ftable, files, ftable', files', f, src[..i], i, next - i, next);
    NextAccepted(ftable, files, f, n, i, chunks, next, Accepted(ftable[f].off, n));
  }

  /** Where the loop stops: at the end, or at the first chunk that does not fit. */
  lemma AcceptedAt(off: nat, n: nat, i: nat, chunks: nat)
    requires AtChunk(off, n, i, chunks)
    requires i < n ==> off + i + Min(n - i, MAXWRITE) > MAXFILE * BSIZE
    ensures i == Accepted(off, n)
  {
  }

  lemma SpliceMore(content: seq<byte>, off: nat, src: seq<byte>, i: nat, j: nat)
    requires off <= |content| && i <= j <= |src|
    ensures Splice(Splice(content, off, src[..i]), off + i, src[i..j]) == Splice(content, off, src[..j])
  {
  }

  class FileTable {
    const fs: FileSystem
    var ftable: seq<OpenFile>
    var refs: seq<nat>          // ip->ref of the cached inodes

    ghost predicate Valid()
      reads this, fs
    {
      fs.Valid() && OffsetsOk(ftable, fs.inode) && RefsOk(ftable, refs) && |refs| == fs.sb.ninodes && ClosedOk(ftable)
    }

    /** All NFILE entries closed. */
    constructor (fs: FileSystem)
      requires fs.Valid()
      ensures Valid() && this.fs == fs && |ftable| == NFILE && forall f :: 0 <= f < NFILE ==> ftable[f].ref == 0
    {
      this.fs := fs;
      ftable := seq(NFILE, i => OpenFile(FD_NONE, 0, false, false, 0, 0));
      refs := seq(fs.sb.ninodes, i => 0);
      new;
      NoOpenings(ftable);
    }

    /** Replaces entry f by one for the same object. */
    method SetEntry(f: nat, x: OpenFile)
      requires Valid() && f < |ftable| && Settled(x) && forall i :: Opens(x, i) == Opens(ftable[f], i)
      requires x.ref > 0 && x.kind == FD_INODE ==>
        x.ip < |fs.inode| && fs.inode[x.ip].kind != T_DEV && x.off <= fs.inode[x.ip].size
      modifies this`ftable
      ensures Valid() && ftable == old(ftable)[f := x]
    {
      RefsKeepEntry(ftable, refs, f, x);
      ClosedUpdate(ftable, f, x);
      ftable := ftable[f := x];
    }

    /** No transaction is open, so that all there is has been committed. */
    ghost predicate Quiet()
      reads this, fs
    {
      fs.log.blocks == {} && fs.Committed()
    }

    /** Entry f is an open file. */
    ghost predicate Ready(f: nat)
      reads this, fs
    {
      Valid() && f < |ftable| && ftable[f].ref > 0 && ftable[f].kind == FD_INODE
    }

    /** Moves the offset of an open file on, within the file. */
    method Advance(f: nat, x: nat)
      requires Ready(f) && ftable[f].ip < |fs.inode| && ftable[f].off + x <= fs.inode[ftable[f].ip].size
      modifies this`ftable
      ensures Valid() && ftable == old(ftable)[f := old(ftable[f]).(off := old(ftable[f]).off + x)]
    {
      SetEntry(f, ftable[f].(off := ftable[f].off + x));
    }

    /** How many blocks the file of entry f has to gain before n bytes can be written at its offset. */
    ghost function Need(f: nat, n: nat): nat
      requires f < |ftable| && ftable[f].ip < |fs.inode|
      reads this, fs
    {
      Needs(ftable, fs.Files(), f, n)
    }

    /**
     * Writes addr[..n] at the file's offset, in transactions that each fit the log. It halts exactly if the disk has
     * too few free blocks for what fits the file.
     */
    method FileWrite(f: nat, addr: seq<byte>, n: int) returns (r: Outcome<int>)
      requires Ready(f) && Quiet() && n <= |addr|
      modifies this`ftable, fs
      ensures r.Done? ==> Quiet()
      ensures var w := if old(ftable[f]).writable && n >= 0 then Accepted(old(ftable[f]).off, n) else 0;
        && (r.Panic? <==> old(fs.Free()) < old(Need(f, w)))
        && (r.Done? ==> Valid() && Wrote(old(ftable), old(fs.Files()), ftable, fs.Files(), f, addr[..w]))
        && (r.Done? ==> r.value == if n >= 0 && w == n && old(ftable[f]).writable then n else -1)
    {
      if !ftable[f].writable {
        WroteNothing(ftable, fs.Files(), f);
        return Done(-1);
      }
      var i :- WriteChunks(f, addr, n);
      return Done(if i == n then n else -1);
    }

    /** The loop of filewrite; returns how many bytes it has written. */
    method WriteChunks(f: nat, addr: seq<byte>, n: int) returns (r: Outcome<nat>)
      requires Ready(f) && Quiet() && n <= |addr|
      modifies this`ftable, fs
      ensures r.Done? ==> Quiet()
      ensures var w := if n < 0 then 0 else Accepted(old(ftable[f]).off, n);
        && (r.Panic? <==> old(fs.Free()) < old(Need(f, w)))
        && (r.Done? ==> Valid() && r.value == w)
        && (r.Done? ==> Wrote(old(ftable), old(fs.Files()), ftable, fs.Files(), f, addr[..w]))
    {
      WroteNothing(ftable, fs.Files(), f);
      ghost var ftable0, files, free, off := ftable, fs.Files(), fs.Free(), ftable[f].off;
      ghost var chunks := 0;
      var i := 0;
      while i < n
        invariant Ready(f) && Quiet() && 0 <= i <= |addr|
        invariant Progress(ftable0, files, free, f, addr[..i], ftable, fs.Files(), fs.Free())
        invariant if n < 0 then i == 0 else AtChunk(off, n, i, chunks)
      {
        ghost var count := chunks + 1;
        assert AtChunk(off, n, i, chunks);
        var next :- WriteNext(f, addr, n, i, ftable0, files, free, chunks);
        StepTaken(off, n, i, chunks, count, next);
        if next == i {
          break;
        }
        i, chunks := next, count;
      }
      if n >= 0 {
        AcceptedAt(off, n, i, chunks);
      }
      return Done(i);
    }

    /** One round of that loop; it stays at i if the next chunk does not fit the file. */
    method WriteNext(f: nat, addr: seq<byte>, n: nat, i: nat, ghost ftable0: seq<OpenFile>, ghost files: seq<seq<byte>>,
                     ghost free: int, ghost chunks: nat)
      returns (r: Outcome<nat>)
      requires Ready(f) && Quiet() && i < n <= |addr|
      requires Progress(ftable0, files, free, f, addr[..i], ftable, fs.Files(), fs.Free())
      requires AtChunk(ftable0[f].off, n, i, chunks)
      modifies this`ftable, fs
      ensures r.Done? ==> Ready(f) && Quiet()
      ensures RoundDone(ftable0, files, free, f, addr, n, i, r, ftable, fs.Files(), if r.Done? then fs.Free() else 0)
    {
      var n1 := n - i;
      if n1 > MAXWRITE {
        n1 := MAXWRITE;
      }
      var next := i + n1;
      ghost var ftable1, files1, free1 := ftable, fs.Files(), fs.Free();
      var x := WriteChunk(f, addr[i..next]);
      r := if x.Panic? then Panic else Done(if x.value < 0 then i else next);
      RoundEnds(ftable0, files, free, f, addr, n, i, chunks, next, ftable1, files1, free1, x, r, ftable, fs.Files(),
        if r.Done? then fs.Free() else 0);
    }

    /** One transaction of filewrite. */
    method WriteChunk(f: nat, src: seq<byte>) returns (r: Outcome<int>)
      requires Ready(f) && Quiet() && 0 < |src| <= MAXWRITE
      modifies this`ftable, fs
      ensures r.Done? ==> Ready(f) && Quiet()
      ensures ChunkDone(old(ftable), old(fs.Files()), old(fs.Free()), f, src, r, ftable, fs.Files(),
        if r.Done? then fs.Free() else 0)
    {
      fs.BeginOp();
      ghost var ftable0, files, free, inodes := ftable, fs.Files(), fs.Free(), fs.inode;
      var x :- fs.Writei(ftable[f].ip, src, ftable[f].off, |src|);
      OffsetsKept(ftable, inodes, fs.inode, ftable[f].ip);
      assert x > 0 ==> x == |src|;
      if x > 0 {
        Advance(f, x);
        ChunkWritten(ftable0, files, free, f, src, x, ftable, fs.Files(), fs.Free());
      }
      Commit();
      return Done(x);
    }

    /** end_op of a transaction that has kept within its reservation: no log_write has found the log full. */
    method Commit()
      requires Valid() && |fs.log.blocks| <= MAXOPBLOCKS
      modifies fs`log, fs`home, fs`homeInodes
      ensures Valid() && Quiet()
    {
      var end := fs.EndOp();
      assert end.Done?;
    }

    /** Reads at the file's offset, which moves on by as many bytes as were read. */
    method FileRead(f: nat, n: nat) returns (r: int, dst: seq<byte>)
      requires Ready(f) && n < WORD_LIMIT
      modifies this`ftable, fs
      ensures Valid() && fs.Files() == old(fs.Files())
      ensures var x := old(ftable[f]);
        if !x.readable || x.off + n >= WORD_LIMIT then
          r == -1 && dst == [] && ftable == old(ftable)
        else
          && r == |dst|
          && dst == fs.Files()[x.ip][x.off..Min(x.off + n, |fs.Files()[x.ip]|)]
          && ftable == old(ftable)[f := x.(off := x.off + |dst|)]
    {
      if !ftable[f].readable {
        return -1, [];
      }
      r, dst := fs.Readi(ftable[f].ip, ftable[f].off, n);
      if r > 0 {
        Advance(f, r);
      }
    }

    /** The first free entry, now referenced once; None when all are taken. */
    method FileAlloc() returns (r: Option<nat>)
      requires Valid()
      modifies this`ftable
      ensures Valid()
      ensures r.None? ==> ftable == old(ftable) && forall f :: 0 <= f < |ftable| ==> ftable[f].ref > 0
      ensures r.Some? ==>
        && r.value < |old(ftable)| && old(ftable)[r.value].ref == 0
        && ftable == old(ftable)[r.value := old(ftable)[r.value].(ref := 1)]
    {
      for f := 0 to |ftable|
        invariant ftable == old(ftable)
        invariant forall g :: 0 <= g < f ==> ftable[g].ref > 0
      {
        if ftable[f].ref == 0 {
          assert Settled(ftable[f]);
          SetEntry(f, ftable[f].(ref := 1));
          return Some(f);
        }
      }
      return None;
    }

    method FileDup(f: nat)
      requires Valid() && f < |ftable| && ftable[f].ref >= 1
      modifies this`ftable
      ensures Valid() && ftable == old(ftable)[f := old(ftable[f]).(ref := old(ftable[f]).ref + 1)]
    {
      SetEntry(f, ftable[f].(ref := ftable[f].ref + 1));
    }

    /**
     * A file as sys_open fills an entry: an inode that holds no device,
     * the offset at the start, one more reference to the inode.
     */
    method Open(f: nat, ip: nat, readable: bool, writable: bool)
      requires Valid() && f < |ftable| && ftable[f].ref > 0 && ftable[f].kind == FD_NONE && ip < fs.sb.ninodes
        && fs.inode[ip].kind != T_DEV
      modifies this`ftable, this`refs
      ensures Valid() && ftable == old(ftable)[f := OpenFile(FD_INODE, old(ftable[f]).ref, readable, writable, ip, 0)]
      ensures refs == old(refs)[ip := old(refs[ip]) + 1]
    {
      var x := OpenFile(FD_INODE, ftable[f].ref, readable, writable, ip, 0);
      RefsTakeEntry(ftable, refs, f, x);
      ClosedUpdate(ftable, f, x);
      ftable, refs := ftable[f := x], refs[ip := refs[ip] + 1];
    }

    /** Closing entry f frees an inode that overruns the log. */
    ghost predicate CloseOverruns(f: nat)
      requires f < |ftable| && |refs| == |fs.inode| == |fs.table|
      reads this, fs
    {
      var x := ftable[f];
      x.ref == 1 && x.kind == FD_INODE && x.ip < |refs| && fs.inode[x.ip].nlink == 0 && refs[x.ip] == 1
        && Overruns(fs.sb, fs.table[x.ip])
    }

    /**
     * Drops a reference to entry f. Only the last one closes it: the entry becomes free, and a pipe end is to be
     * closed or an inode loses a reference; if that was the inode's last reference and it has no links, its blocks
     * are freed. It halts exactly if that overruns the log.
     */
    method FileClose(f: nat) returns (closesPipe: Outcome<bool>)
      requires Valid() && Quiet() && f < |ftable| && ftable[f].ref >= 1
      modifies this, fs
      ensures closesPipe.Panic? <==> old(CloseOverruns(f))
      ensures closesPipe.Done? ==> Valid() && Quiet()
      ensures ftable == old(ftable)[f := if old(ftable[f]).ref > 1 then old(ftable[f]).(ref := old(ftable[f]).ref - 1)
                                         else old(ftable[f]).(ref := 0, kind := FD_NONE)]
      ensures closesPipe.Done? ==> (closesPipe.value <==> old(ftable[f]).ref == 1 && old(ftable[f]).kind == FD_PIPE)
      ensures old(ftable[f]).ref > 1 || old(ftable[f]).kind != FD_INODE ==>
        refs == old(refs) && fs.Files() == old(fs.Files()) && fs.inode == old(fs.inode)
      ensures closesPipe.Done? && old(ftable[f]).ref == 1 && old(ftable[f]).kind == FD_INODE ==>
        Put(old(refs), old(fs.Files()), old(fs.inode), old(ftable[f]).ip)
    {
      if ftable[f].ref - 1 > 0 {
        SetEntry(f, ftable[f].(ref := ftable[f].ref - 1));
        return Done(false);
      }
      var ff := ftable[f];
      if ff.kind == FD_INODE {
        var r := CloseInode(f);
        return if r.Panic? then Panic else Done(false);
      }
      SetEntry(f, ff.(ref := 0, kind := FD_NONE));
      return Done(ff.kind == FD_PIPE);
    }

    /**
     * Inode i has lost a reference and, if that was the last one and it has no links,
     * its contents and its type; no other inode or reference count has changed.
     */
    ghost predicate Put(refs0: seq<nat>, files0: seq<seq<byte>>, inodes0: seq<Dinode>, i: nat)
      reads this, fs
    {
      && i < |refs0| == |files0| == |inodes0| == |fs.inode| && refs0[i] > 0 && refs == refs0[i := refs0[i] - 1]
      && var last := inodes0[i].nlink == 0 && refs0[i] == 1;
         && fs.Files() == (if last then files0[i := []] else files0)
         && fs.inode == (if last then inodes0[i := Dinode(0, 0, 0, NoAddrs())] else inodes0)
    }

    /** Closing the last reference to a file: begin_op, iput, end_op. */
    method CloseInode(f: nat) returns (r: Outcome<()>)
      requires Valid() && Quiet() && f < |ftable| && ftable[f].ref == 1 && ftable[f].kind == FD_INODE
      modifies this, fs
      ensures r.Panic? <==> old(CloseOverruns(f))
      ensures r.Done? ==> Quiet()
      ensures Valid() && ftable == old(ftable)[f := old(ftable[f]).(ref := 0, kind := FD_NONE)]
      ensures Put(old(refs), old(fs.Files()), old(fs.inode), old(ftable[f]).ip)
    {
      var ff := ftable[f];
      RefsDropEntry(ftable, refs, f);
      ClosedUpdate(ftable, f, ff.(ref := 0, kind := FD_NONE));
      ftable := ftable[f := ff.(ref := 0, kind := FD_NONE)];
      assert fs.Files() == old(fs.Files());
      r := PutInode(ff.ip);
    }

    /** begin_op, iput, end_op: it halts exactly if the inode is freed and overruns the log. */
    method PutInode(i: nat) returns (r: Outcome<()>)
      requires fs.Valid() && OffsetsOk(ftable, fs.inode) && ClosedOk(ftable) && |refs| == fs.sb.ninodes
      requires i < |refs| && refs[i] >= 1
      requires forall j :: 0 <= j < |refs| ==> Openings(ftable, j) <= refs[j] - if j == i then 1 else 0
      requires Quiet()
      modifies this`refs, fs
      ensures r.Done? ==> Quiet()
      ensures r.Panic? <==> old(fs.inode[i]).nlink == 0 && old(refs[i]) == 1 && Overruns(fs.sb, old(fs.table)[i])
      ensures Valid() && Put(old(refs), old(fs.Files()), old(fs.inode), i)
    {
      fs.BeginOp();
      Iput(i);
      r := fs.EndOp();
    }

    /**
     * Drops a reference to inode i, and frees the inode if that was the last one and no directory names it. In a
     * transaction of its own that is more than was reserved exactly if the inode exceeds the reservation, and some
     * log_write finds the log full exactly if the inode overruns it.
     */
    method Iput(i: nat)
      requires fs.Valid() && OffsetsOk(ftable, fs.inode) && ClosedOk(ftable) && |refs| == fs.sb.ninodes
      requires i < |refs| && refs[i] >= 1
      requires forall j :: 0 <= j < |refs| ==> Openings(ftable, j) <= refs[j] - if j == i then 1 else 0
      modifies this`refs, fs
      ensures Valid() && Put(old(refs), old(fs.Files()), old(fs.inode), i)
      ensures old(fs.log) == Journal({}, 0) ==> var last := old(fs.inode[i]).nlink == 0 && old(refs[i]) == 1;
        && (|fs.log.blocks| > MAXOPBLOCKS <==> last && Exceeds(fs.sb, old(fs.table)[i]))
        && (fs.log.found >= LogRoom(fs.sb) <==> last && Overruns(fs.sb, old(fs.table)[i]))
    {
      if fs.inode[i].nlink == 0 && refs[i] == 1 {
        FreeUnlinked(i);
      }
      refs := refs[i := refs[i] - 1];
    }

    /** itrunc, and the inode becomes free. */
    method FreeUnlinked(i: nat)
      requires fs.Valid() && OffsetsOk(ftable, fs.inode) && i < fs.sb.ninodes && Openings(ftable, i) == 0
      requires fs.inode[i].nlink == 0
      modifies fs
      ensures fs.Valid() && OffsetsOk(ftable, fs.inode)
      ensures fs.Files() == old(fs.Files())[i := []] && fs.inode == old(fs.inode)[i := Dinode(0, 0, 0, NoAddrs())]
      ensures old(fs.log) == Journal({}, 0) ==>
        && (|fs.log.blocks| > MAXOPBLOCKS <==> Exceeds(fs.sb, old(fs.table)[i]))
        && (fs.log.found >= LogRoom(fs.sb) <==> Overruns(fs.sb, old(fs.table)[i]))
    {
      NotOpen(ftable, i);
      fs.Itrunc(i);
      ghost var logged := fs.log.blocks;
      fs.FreeInode(i);
      assert fs.log.blocks == logged;
      if old(fs.log) == Journal({}, 0) {
        assert logged == TruncMaps(fs.sb, old(fs.table)[i]) + {InodeBlock(fs.sb, i)};
        FitsExactlyWhen(fs.sb, old(fs.table)[i], i, logged);
      }
    }
  }

  /** The file of entry f has src spliced in at the entry's offset, which moves on past it; nothing else changed. */
  ghost predicate Wrote(ftable: seq<OpenFile>, files: seq<seq<byte>>, ftable': seq<OpenFile>, files': seq<seq<byte>>,
                        f: nat, src: seq<byte>) {
    && f < |ftable| && ftable[f].ip < |files| && ftable[f].off <= |files[ftable[f].ip]|
    && ftable' == ftable[f := ftable[f].(off := ftable[f].off + |src|)]
    && files' == files[ftable[f].ip := Splice(files[ftable[f].ip], ftable[f].off, src)]
  }

  lemma WroteNothing(ftable: seq<OpenFile>, files: seq<seq<byte>>, f: nat)
    requires f < |ftable| && ftable[f].ip < |files| && ftable[f].off <= |files[ftable[f].ip]|
    ensures Wrote(ftable, files, ftable, files, f, [])
  {
    var content := files[ftable[f].ip];
    assert Splice(content, ftable[f].off, []) == content;
  }

  lemma WroteTwice(ftable: seq<OpenFile>, files: seq<seq<byte>>, ftable': seq<OpenFile>, files': seq<seq<byte>>,
                   ftable'': seq<OpenFile>, files'': seq<seq<byte>>, f: nat, src: seq<byte>, i: nat, j: nat)
    requires i <= j <= |src|
    requires Wrote(ftable, files, ftable', files', f, src[..i])
      && Wrote(ftable', files', ftable'', files'', f, src[i..j])
    ensures Wrote(ftable, files, ftable'', files'', f, src[..j])
  {
    SpliceMore(files[ftable[f].ip], ftable[f].off, src, i, j);
  }
}
