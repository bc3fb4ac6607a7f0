/**
 * The block, inode and byte layers of fs.c over one disk: balloc, bfree, bmap, itrunc, readi, writei.
 * bread/brelse give access to one block of the disk; log_write records the block in the open transaction.
 */
module FileSystems {
  import opened Basics
  import opened Outcomes
  import opened Bytes
  import opened FsContent
  import opened FsFree
  import opened FsLayout
  import opened FsLedger
  import opened FsLog

  /** The bit that balloc tests for block b + bi when it scans the bitmap block of b. */
  lemma BitInBlock(sb: Superblock, disk: seq<Block>, b: nat, bi: nat)
    requires DiskOk(sb, disk) && b % BPB == 0 && bi < BPB && b + bi < sb.size
    ensures BitmapBlock(sb, b) < |disk|
    ensures InUse(sb, disk, b + bi) <==> Bit(disk[BitmapBlock(sb, b)][bi / 8], bi % 8)
  {
    ScanPosition(b, bi);
  }

  lemma ScanPosition(b: nat, bi: nat)
    requires b % BPB == 0 && bi < BPB
    ensures (b + bi) / BPB == b / BPB && (b + bi) % BPB == bi && (b + bi) % 8 == bi % 8
  {
    assert b == 8 * (BSIZE * (b / BPB));
  }

  /** Inode i has lost its first k addresses, and nothing else; no other inode has changed. */
  ghost predicate Cut(inodes: seq<Dinode>, inodes': seq<Dinode>, i: nat, k: nat) {
    && |inodes'| == |inodes| && i < |inodes| && inodes' == inodes[i := inodes[i].(addrs := inodes'[i].addrs)]
    && forall x :: 0 <= x <= NDIRECT ==> inodes'[i].addrs[x] == if x < k then 0 else inodes[i].addrs[x]
  }

  lemma CutNone(inodes: seq<Dinode>, i: nat)
    requires i < |inodes|
    ensures Cut(inodes, inodes, i, 0)
  {
    assert inodes[i] == inodes[i].(addrs := inodes[i].addrs);
  }

  lemma CutNext(inodes: seq<Dinode>, inodes': seq<Dinode>, inodes'': seq<Dinode>, i: nat, k: nat, next: nat)
    requires Cut(inodes, inodes', i, k) && k <= NDIRECT && next == k + 1
    requires inodes'' == (if inodes'[i].addrs[k] == 0 then inodes' else WithAddr(inodes', i, k, 0))
    ensures Cut(inodes, inodes'', i, next)
  {
  }

  lemma SlicesJoin(s: seq<byte>, a: nat, b: nat, c: nat)
    requires a <= b <= c <= |s|
    ensures s[a..b] + s[b..c] == s[a..c]
  {
  }

  class FileSystem {
    const sb: Superblock
    var disk: seq<Block>
    var dinode: seq<Dinode>      // the inodes on disk
    var inode: seq<Dinode>       // the inodes as ilock hands them out: the cached copies
    var log: Log                 // the open transaction
    ghost var home: seq<Block>           // the blocks as they were committed last
    ghost var homeInodes: seq<Dinode>    // and the inodes
    ghost var table: seq<BlockMap>       // the block map that each inode and its indirect block spell out
    ghost var owner: Owners      // the place that names each data or indirect block

    ghost function Now(): View
      reads this
    {
      View(disk, inode, table, owner)
    }

    /** A disk on which just the metadata is marked in use, and no inode has a block. */
    constructor (sb: Superblock)
      ensures Valid() && this.sb == sb && log == Journal({}, 0) && Committed() && |inode| == sb.ninodes
      ensures forall i :: 0 <= i < |inode| ==> inode[i] == Dinode(0, 0, 0, NoAddrs())
    {
      this.sb := sb;
      log, owner := Journal({}, 0), map[];
      disk, inode, dinode, table := EmptyView(sb).disk, EmptyView(sb).inodes, EmptyView(sb).inodes, EmptyView(sb).table;
      home, homeInodes := EmptyView(sb).disk, EmptyView(sb).inodes;
      new;
      EmptyViewOk(sb);
    }

    /**
     * What balloc, bfree and bmap rely on, also in the middle of a write; and every block that differs from the
     * committed one is in the log.
     */
    ghost predicate LedgerOk()
      reads this
    {
      Ledger(sb, Now()) && Covers(home, disk, log.blocks)
    }

    /** Between operations: dense files of legal size, and the write-through cache agrees with the disk. */
    ghost predicate Valid()
      reads this
    {
      LedgerOk() && DenseAll(Now()) && dinode == inode && CoversInodes(sb, homeInodes, dinode, log.blocks)
    }

    /** Nothing would be lost in a crash. */
    ghost predicate Committed()
      reads this
    {
      home == disk && homeInodes == dinode
    }

    /** The plain view of file i. */
    function File(i: nat): seq<byte>
      requires i < |inode|
      reads this
    {
      Content(inode[i], disk)
    }

    function Files(): (fs: seq<seq<byte>>)
      reads this
      ensures |fs| == |inode|
    {
      AllFiles(inode, disk)
    }

    /** No block is free. */
    ghost predicate DiskFull()
      reads this
    {
      DiskOk(sb, disk) && UsedBelow(sb, disk, sb.size)
    }

    /** How many blocks are free. */
    ghost function Free(): nat
      requires DiskOk(sb, disk)
      reads this
    {
      |Unused(sb, disk)|
    }

    /** The same by the account of who owns which block. */
    ghost function Spare(): int
      reads this
    {
      FsLedger.Spare(sb, Now())
    }

    /** Allocates the first free block and zeroes it; halts when there is none. */
    method Balloc() returns (r: Outcome<nat>)
      requires DiskOk(sb, disk) && UsedBelow(sb, disk, sb.datastart)
      modifies this`disk, this`log
      ensures r.Panic? <==> old(DiskFull())
      ensures r.Panic? ==> disk == old(disk) && log.blocks == old(log.blocks)
      ensures r.Done? ==>
        && old(UsedBelow(sb, disk, r.value))
        && Taken(sb, old(disk), disk, r.value)
        && log.blocks == old(log.blocks) + {BitmapBlock(sb, r.value), r.value}
    {
      var b := 0;
      while b < sb.size
        invariant b % BPB == 0
        invariant disk == old(disk) && log.blocks == old(log.blocks)
        invariant UsedBelow(sb, disk, b)
      {
        var found, c := FirstClear(b);
        if found {
          Take(c);
          return Done(c);
        }
        b := b + BPB;
      }
      return Panic;
    }

    /** balloc's inner loop: the first clear bit in the bitmap block of b. */
    method FirstClear(b: nat) returns (found: bool, c: nat)
      requires DiskOk(sb, disk) && b % BPB == 0 && b < sb.size && UsedBelow(sb, disk, b)
      ensures found ==> c < sb.size && !InUse(sb, disk, c) && UsedBelow(sb, disk, c)
      ensures !found ==> UsedBelow(sb, disk, b + BPB)
    {
      var bi := 0;
      while bi < BPB && b + bi < sb.size
        invariant 0 <= bi <= BPB
        invariant UsedBelow(sb, disk, b + bi)
      {
        var used := TestBit(b, bi);
        if !used {
          return true, b + bi;
        }
        bi := bi + 1;
      }
      return false, 0;
    }

    /** Whether block b + bi is marked, seen from the bitmap block that b begins. */
    method TestBit(b: nat, bi: nat) returns (used: bool)
      requires DiskOk(sb, disk) && b % BPB == 0 && bi < BPB && b + bi < sb.size
      ensures used <==> InUse(sb, disk, b + bi)
    {
      BitInBlock(sb, disk, b, bi);
      used := Bit(disk[BitmapBlock(sb, b)][bi / 8], bi % 8);
    }

    /** Marks block b in use and zeroes it. */
    method Take(b: nat)
      requires DiskOk(sb, disk) && sb.datastart <= b < sb.size && !InUse(sb, disk, b)
      modifies this`disk, this`log
      ensures Taken(sb, old(disk), disk, b)
      ensures log.blocks == old(log.blocks) + {BitmapBlock(sb, b), b}
    {
      WriteBit(b, true);
      Bzero(b);
    }

    /** Sets or clears one bit of the bitmap, through the log. */
    method WriteBit(b: nat, used: bool)
      requires DiskOk(sb, disk) && b < sb.size
      modifies this`disk, this`log
      ensures disk == Mark(sb, old(disk), b, used) && log.blocks == old(log.blocks) + {BitmapBlock(sb, b)}
    {
      var bp, bi := BitmapBlock(sb, b), b % BPB;
      assert bi % 8 == b % 8;
      var x := disk[bp][bi / 8];
      disk := disk[bp := disk[bp][bi / 8 := if used then RaiseByte(x, bi % 8) else LowerByte(x, bi % 8)]];
      LogWrite(bp);
    }

    method Bzero(b: nat)
      requires b < |disk|
      modifies this`disk, this`log
      ensures disk == old(disk)[b := ZeroBlock()] && log.blocks == old(log.blocks) + {b}
    {
      disk := disk[b := ZeroBlock()];
      LogWrite(b);
    }

    /**
     * log_write halts if it finds the log full, before it looks whether b is in there already. The number of blocks in
     * a transaction only grows, so that it is enough to note what this one found; EndOp tells whether one has halted.
     */
    method LogWrite(b: nat)
      modifies this`log
      ensures log == Journal(old(log.blocks) + {b}, |old(log.blocks)|)
    {
      SubsetSize(log.blocks, log.blocks + {b});
      log := Journal(log.blocks + {b}, |log.blocks|);
    }

    /** Clears the bit of block b; halts on a block that is already free. */
    method Bfree(b: nat) returns (r: Outcome<()>)
      requires DiskOk(sb, disk) && b < sb.size
      modifies this`disk, this`log
      ensures r.Panic? <==> !old(InUse(sb, disk, b))
      ensures r.Done? ==> disk == Mark(sb, old(disk), b, false) && log.blocks == old(log.blocks) + {BitmapBlock(sb, b)}
    {
      var bp := BitmapBlock(sb, b);
      var bi := b % BPB;
      assert bi % 8 == b % 8;
      if !Bit(disk[bp][bi / 8], bi % 8) {
        return Panic;
      }
      WriteBit(b, false);
      return Done(());
    }

    /** Gives an inode address that is still 0 a fresh block. */
    method AllocAddr(i: nat, idx: nat) returns (r: Outcome<nat>)
      requires LedgerOk() && i < sb.ninodes && idx <= NDIRECT && inode[i].addrs[idx] == 0
      modifies this`disk, this`inode, this`log, this`table, this`owner
      ensures LedgerOk()
      ensures r.Panic? <==> old(Spare()) == 0
      ensures r.Done? ==> Spare() == old(Spare()) - 1
      ensures r.Done? ==>
        && r.value == inode[i].addrs[idx] == table[i][SlotOf(idx)]
        && Extended(old(Now()), Now(), i, {SlotOf(idx)}) && disk[r.value] == ZeroBlock()
        && log.blocks == old(log.blocks) + {BitmapBlock(sb, r.value), r.value}
    {
      SpareIsUnused(sb, Now());
      var addr :- Balloc();
      LedgerTakesAddr(sb, old(Now()), i, idx, addr, disk);
      CoversTwo(home, old(disk), disk, addr, BitmapBlock(sb, addr), old(log.blocks), log.blocks);
      inode := inode[i := inode[i].(addrs := inode[i].addrs[idx := addr])];
      table := table[i := table[i][SlotOf(idx) := addr]];
      owner := owner[addr := Place(i, SlotOf(idx))];
      return Done(addr);
    }

    /** Gives an entry of the indirect block that is still 0 a fresh block. */
    method AllocEntry(i: nat, bn: nat) returns (r: Outcome<nat>)
      requires LedgerOk() && i < sb.ninodes && NDIRECT <= bn < MAXFILE && inode[i].addrs[NDIRECT] != 0
        && table[i][bn] == 0
      modifies this`disk, this`log, this`table, this`owner
      ensures LedgerOk()
      ensures r.Panic? <==> old(Spare()) == 0
      ensures r.Done? ==> Spare() == old(Spare()) - 1
      ensures r.Done? ==>
        && r.value == table[i][bn]
        && Extended(old(Now()), Now(), i, {bn}) && disk[r.value] == ZeroBlock()
        && log.blocks == old(log.blocks) + {BitmapBlock(sb, r.value), r.value, inode[i].addrs[NDIRECT]}
    {
      var ind := inode[i].addrs[NDIRECT];
      assert Addr(inode[i], disk, MAXFILE) == ind;
      SpareIsUnused(sb, Now());
      var addr :- Balloc();
      ghost var mid, log1 := disk, log.blocks;
      CoversTwo(home, old(disk), disk, addr, BitmapBlock(sb, addr), old(log.blocks), log1);
      WriteEntry(ind, bn - NDIRECT, addr);
      CoversWrite(home, mid, disk, ind, log1, log.blocks);
      LedgerTakesEntry(sb, old(Now()), i, bn, addr, mid, disk);
      table := table[i := table[i][bn := addr]];
      owner := owner[addr := Place(i, bn)];
      return Done(addr);
    }

    /** The block of an inode address, allocated if there is none; maps are the bitmap blocks this logs. */
    method AddrOf(i: nat, idx: nat) returns (r: Outcome<nat>, ghost maps: set<nat>)
      requires LedgerOk() && i < sb.ninodes && idx <= NDIRECT
      modifies this`disk, this`inode, this`log, this`table, this`owner
      ensures LedgerOk()
      ensures r.Panic? <==> old(Spare()) < |Gap(old(table)[i], SlotOf(idx))|
      ensures r.Done? ==> Spare() == old(Spare()) - |Gap(old(table)[i], SlotOf(idx))|
      ensures r.Done? ==>
        && r.value == inode[i].addrs[idx] == table[i][SlotOf(idx)] != 0
        && Extended(old(Now()), Now(), i, Gap(old(table)[i], SlotOf(idx)))
        && (old(table)[i][SlotOf(idx)] == 0 ==> disk[r.value] == ZeroBlock())
        && |maps| <= |Gap(old(table)[i], SlotOf(idx))|
        && old(log.blocks) <= log.blocks <= old(log.blocks) + maps + {r.value}
      ensures old(table)[i][SlotOf(idx)] != 0 ==> r.Done? && unchanged(this)
    {
      maps := {};
      SpareIsUnused(sb, Now());
      var addr := inode[i].addrs[idx];
      assert Addr(inode[i], disk, SlotOf(idx)) == addr;
      if addr == 0 {
        addr :- AllocAddr(i, idx);
        maps := {BitmapBlock(sb, addr)};
      }
      return Done(addr), maps;
    }

    /** The block of an entry of the indirect block, allocated if there is none. */
    method EntryOf(i: nat, bn: nat) returns (r: Outcome<nat>, ghost maps: set<nat>)
      requires LedgerOk() && i < sb.ninodes && NDIRECT <= bn < MAXFILE && inode[i].addrs[NDIRECT] != 0
      modifies this`disk, this`log, this`table, this`owner
      ensures LedgerOk()
      ensures r.Panic? <==> old(Spare()) < |Gap(old(table)[i], bn)|
      ensures r.Done? ==> Spare() == old(Spare()) - |Gap(old(table)[i], bn)|
      ensures r.Done? ==>
        && r.value == table[i][bn] != 0
        && Extended(old(Now()), Now(), i, Gap(old(table)[i], bn))
        && (old(table)[i][bn] == 0 ==> disk[r.value] == ZeroBlock())
        && |maps| <= |Gap(old(table)[i], bn)|
        && old(log.blocks) <= log.blocks <= old(log.blocks) + maps + {r.value, inode[i].addrs[NDIRECT]}
      ensures old(table)[i][bn] != 0 ==> r.Done? && unchanged(this)
    {
      maps := {};
      SpareIsUnused(sb, Now());
      assert Addr(inode[i], disk, MAXFILE) == inode[i].addrs[NDIRECT];
      assert Addr(inode[i], disk, bn) == table[i][bn];
      var addr := GetWord(disk[inode[i].addrs[NDIRECT]], bn - NDIRECT);
      if addr == 0 {
        addr :- AllocEntry(i, bn);
        maps := {BitmapBlock(sb, addr)};
      }
      return Done(addr), maps;
    }

    /**
     * The block of data block bn of inode i, allocated (with the indirect block if need be) when absent.
     * maps are the bitmap blocks that the allocation touched.
     */
    method Bmap(i: nat, bn: nat) returns (r: Outcome<nat>, ghost maps: set<nat>)
      requires LedgerOk() && i < sb.ninodes && bn < MAXFILE
      modifies this`disk, this`inode, this`log, this`table, this`owner
      ensures LedgerOk()
      ensures r.Panic? <==> old(Spare()) < |Missing(old(table)[i], bn)|
      ensures r.Done? ==> Spare() == old(Spare()) - |Missing(old(table)[i], bn)|
      ensures r.Done? ==>
        && r.value == table[i][bn] != 0
        && Extended(old(Now()), Now(), i, Missing(old(table)[i], bn))
        && (old(table)[i][bn] == 0 ==> disk[r.value] == ZeroBlock())
        && BlockLogged(old(log.blocks), log.blocks, old(table)[i], table[i], bn, maps)
      ensures Missing(old(table)[i], bn) == {} ==> r.Done? && unchanged(this)
    {
      maps := {};
      if bn < NDIRECT {
        assert Missing(table[i], bn) == Gap(table[i], bn);
        r, maps := AddrOf(i, bn);
      } else {
        r, maps := BmapIndirect(i, bn);
      }
    }

    method BmapIndirect(i: nat, bn: nat) returns (r: Outcome<nat>, ghost maps: set<nat>)
      requires LedgerOk() && i < sb.ninodes && NDIRECT <= bn < MAXFILE
      modifies this`disk, this`inode, this`log, this`table, this`owner
      ensures LedgerOk()
      ensures r.Panic? <==> old(Spare()) < |Missing(old(table)[i], bn)|
      ensures r.Done? ==> Spare() == old(Spare()) - |Missing(old(table)[i], bn)|
      ensures r.Done? ==>
        && r.value == table[i][bn] != 0
        && Extended(old(Now()), Now(), i, Missing(old(table)[i], bn))
        && (old(table)[i][bn] == 0 ==> disk[r.value] == ZeroBlock())
        && BlockLogged(old(log.blocks), log.blocks, old(table)[i], table[i], bn, maps)
      ensures Missing(old(table)[i], bn) == {} ==> r.Done? && unchanged(this)
    {
      maps := {};
      MissingIsGaps(table[i], bn);
      var ind, m :- AddrOf(i, NDIRECT);
      ghost var mid := Now();
      var addr, m' :- EntryOf(i, bn);
      maps := m + m';
      ExtendedTwice(old(Now()), mid, Now(), i, bn);
      LoggedTwice(old(log.blocks), log.blocks, old(table)[i], table[i], bn, m, m');
      return Done(addr), maps;
    }

    /** Stores one entry of an indirect block, through the log. */
    method WriteEntry(ind: nat, e: nat, w: nat)
      requires ind < |disk| && e < NINDIRECT && w < WORD_LIMIT
      modifies this`disk, this`log
      ensures EntryWritten(old(disk), disk, ind, e, w) && log.blocks == old(log.blocks) + {ind}
    {
      disk := disk[ind := PutWord(disk[ind], e, w)];
      LogWrite(ind);
    }

    /** Reads at most n bytes from off on, clipped to the end of the file; allocates nothing, halts never. */
    method Readi(i: nat, off: nat, n: nat) returns (r: int, dst: seq<byte>)
      requires Valid() && i < sb.ninodes && inode[i].kind != T_DEV && off < WORD_LIMIT && n < WORD_LIMIT
      modifies this`disk, this`inode, this`log, this`table, this`owner
      ensures unchanged(this)
      ensures var got := ReadAt(File(i), off, n);
              if got.None? then r == -1 && dst == [] else r == |dst| && dst == got.value
    {
      ReadAtIs(File(i), off, n);
      if off > inode[i].size || (off + n) % WORD_LIMIT < off {
        return -1, [];
      }
      var len := if off + n > inode[i].size then inode[i].size - off else n;
      dst := ReadBlocks(i, off, len, off + len);
      return len, dst;
    }

    /** The loop of readi. */
    method ReadBlocks(i: nat, off: nat, len: nat, ghost end: nat) returns (dst: seq<byte>)
      requires Valid() && i < sb.ninodes && end == off + len <= inode[i].size
      modifies this`disk, this`inode, this`log, this`table, this`owner
      ensures unchanged(this) && dst == File(i)[off..end]
    {
      dst := [];
      var cur, tot := off, 0;
      ghost var file := File(i);
      while tot < len
        invariant unchanged(this)
        invariant tot <= len && cur == off + tot <= |file|
        invariant dst == file[off..cur]
      {
        var m, next := Chunk(cur, len - tot);
        var piece := ReadBlock(i, cur, m, next);
        SlicesJoin(file, off, cur, next);
        dst := dst + piece;
        tot, cur := tot + m, next;
      }
    }

    /** One round of readi: m bytes from the block of byte off, which exists, so that bmap allocates nothing. */
    method ReadBlock(i: nat, off: nat, m: nat, ghost next: nat) returns (piece: seq<byte>)
      requires Valid() && i < sb.ninodes && 0 < m && next == off + m <= inode[i].size && off % BSIZE + m <= BSIZE
      modifies this`disk, this`inode, this`log, this`table, this`owner
      ensures unchanged(this) && piece == File(i)[off..next]
    {
      DenseHasBlock(table[i], BlocksFor(inode[i].size), off / BSIZE);
      FilePiece(i, off, m);
      var b, _ := Bmap(i, off / BSIZE);
      piece := disk[b.value][off % BSIZE..off % BSIZE + m];
    }

    /** A stretch of a file that lies in one block. */
    lemma FilePiece(i: nat, off: nat, m: nat)
      requires LedgerOk() && i < sb.ninodes && off + m <= inode[i].size <= MAXFILE * BSIZE && off % BSIZE + m <= BSIZE
      requires 0 < m && 0 < table[i][off / BSIZE]
      ensures table[i][off / BSIZE] < |disk|
      ensures File(i)[off..off + m] == disk[table[i][off / BSIZE]][off % BSIZE..off % BSIZE + m]
    {
      var b := table[i][off / BSIZE];
      assert b in owner;
      var f, g := File(i)[off..off + m], disk[b][off % BSIZE..off % BSIZE + m];
      forall x | 0 <= x < m
        ensures f[x] == g[x]
      {
        assert (off + x) / BSIZE == off / BSIZE && (off + x) % BSIZE == off % BSIZE + x;
        MapByteIsDataByte(sb, Now(), i, off + x);
      }
    }

    /**
     * Writes src[..n] from off on. A file never gets a hole or grows past MAXFILE blocks; a rejected write changes
     * nothing. No other file changes, and a write of at most three blocks' worth fits one log transaction.
     */
    method Writei(i: nat, src: seq<byte>, off: nat, n: nat) returns (r: Outcome<int>)
      requires Valid() && i < sb.ninodes && inode[i].kind != T_DEV && off < WORD_LIMIT && n < WORD_LIMIT && n <= |src|
      modifies this`disk, this`dinode, this`inode, this`log, this`table, this`owner
      ensures r.Panic? <==> old(Accepts(i, off, n)) && old(Free()) < NewBlocks(old(|File(i)|), off, n)
      ensures !old(Accepts(i, off, n)) ==> r == Done(-1) && unchanged(this)
      ensures r.Done? ==> Valid()
      ensures r.Done? && old(Accepts(i, off, n)) ==>
        && r.value == n
        && Files() == old(Files())[i := Splice(old(File(i)), off, src[..n])]
        && inode == old(inode)[i := old(inode[i]).(addrs := inode[i].addrs, size := inode[i].size)]
        && Free() == old(Free()) - NewBlocks(old(|File(i)|), off, n)
      ensures r.Done? && n <= 3 * BSIZE ==> |log.blocks| <= |old(log.blocks)| + MAXOPBLOCKS
      ensures r.Done? ==> AllLogged(old(disk), old(dinode), old(log.blocks))
    {
      if off > inode[i].size || (off + n) % WORD_LIMIT < off {
        return Done(-1);
      }
      if off + n > MAXFILE * BSIZE {
        return Done(-1);
      }
      ghost var v := Now();
      SpareIsUnused(sb, v);
      var cur :- WriteBlocks(i, src, off, n);
      UpdateSize(i, off, n, cur, v, src);
      SpareIsUnused(sb, Now());
      LogsAll(old(disk), old(dinode), old(log.blocks));
      return Done(n);
    }

    /**
     * The log has only grown, and has every block that has changed, also those of inodes that have been written back.
     */
    ghost predicate AllLogged(disk0: seq<Block>, dinode0: seq<Dinode>, logged0: set<nat>)
      reads this
    {
      && logged0 <= log.blocks && |disk| == |disk0| && |dinode| == |dinode0|
      && (forall b: nat :: b < |disk| && disk[b] != disk0[b] ==> b in log.blocks)
      && (forall j: nat :: j < |dinode| && dinode[j] != dinode0[j] ==> InodeBlock(sb, j) in log.blocks)
    }

    lemma LogsAll(disk0: seq<Block>, dinode0: seq<Dinode>, logged0: set<nat>)
      requires Covers(home, disk0, logged0) && CoversInodes(sb, homeInodes, dinode0, logged0)
      requires Covers(home, disk, log.blocks) && CoversInodes(sb, homeInodes, dinode, log.blocks)
        && logged0 <= log.blocks
      ensures AllLogged(disk0, dinode0, logged0)
    {
      ChangesLogged(home, disk0, disk, logged0, log.blocks);
      InodeChangesLogged(sb, homeInodes, dinode0, dinode, logged0, log.blocks);
    }

    /** The end of a write is in 32 bits, within the largest file, and there is no hole in front of it. */
    predicate Accepts(i: nat, off: nat, n: nat)
      requires i < |inode|
      reads this
    {
      off <= |File(i)| && off + n < WORD_LIMIT && off + n <= MAXFILE * BSIZE
    }

    /** The end of writei: the inode is written back only if the file has grown. */
    method UpdateSize(i: nat, off: nat, n: nat, cur: nat, ghost v: View, ghost src: seq<byte>)
      requires LedgerOk() && Ledger(sb, v) && DenseAll(v) && i < sb.ninodes && n <= |src|
      requires off <= v.inodes[i].size && off + n == cur <= MAXFILE * BSIZE
      requires Writing(v, Now(), i, off, cur, src) && dinode == v.inodes
      requires CoversInodes(sb, homeInodes, dinode, log.blocks)
      modifies this`dinode, this`inode, this`log
      ensures Valid() && Files() == AllFiles(v.inodes, v.disk)[i := Splice(Content(v.inodes[i], v.disk), off, src[..n])]
      ensures inode == v.inodes[i := v.inodes[i].(addrs := inode[i].addrs, size := inode[i].size)]
      ensures |log.blocks| <= |old(log.blocks)| + 1 && old(log.blocks) <= log.blocks
    {
      ghost var mid := Now();
      WriteCommits(sb, v, mid, i, off, n, src);
      if n > 0 && cur > inode[i].size {
        inode := inode[i := inode[i].(size := cur)];
        Iupdate(i);
      }
      assert inode == mid.inodes[i := Resized(mid.inodes[i], off + n)];
      FilesWritten(sb, v, mid, i, off, n, src);
      assert inode == v.inodes[i := inode[i]];
    }

    /** The loop of writei; returns the offset at which it ends. */
    method WriteBlocks(i: nat, src: seq<byte>, off: nat, n: nat) returns (r: Outcome<nat>)
      requires LedgerOk() && DenseAll(Now())
      requires i < sb.ninodes && n <= |src| && off <= inode[i].size && off + n <= MAXFILE * BSIZE
      modifies this`disk, this`inode, this`log, this`table, this`owner
      ensures LedgerOk()
      ensures r.Panic? <==> old(Spare()) < NewBlocks(old(inode[i]).size, off, n)
      ensures r.Done? ==> Spare() == old(Spare()) - NewBlocks(old(inode[i]).size, off, n)
      ensures r.Done? ==>
        && r.value == off + n
        && Writing(old(Now()), Now(), i, off, off + n, src) && old(log.blocks) <= log.blocks
        && (n <= 3 * BSIZE ==> |log.blocks| <= |old(log.blocks)| + 4 + 4 + 1)
    {
      ghost var v, log0 := Now(), log.blocks;
      SpareAtEnd(sb, v, i, off, n);
      WriteStarts(v, log0, i, off, n, src);
      var cur, use :- WriteLoop(i, src, off, n, v, log0);
      if n <= 3 * BSIZE {
        LogTotal(log0, log.blocks, v.table[i], table[i], v.inodes[i].size, off, n, use);
      }
      SpareIsUnused(sb, Now());
      return Done(cur);
    }

    method WriteLoop(i: nat, src: seq<byte>, off: nat, n: nat, ghost v: View, ghost log0: set<nat>)
      returns (r: Outcome<nat>, ghost use: LogUse)
      requires LedgerOk() && InWrite(v, log0, Now(), log.blocks, i, off, n, off, src, LogUse({}, {}, {}))
      requires n <= |src| && off <= v.inodes[i].size && off + n <= MAXFILE * BSIZE
      requires Spare() == SpareAt(sb, v, i, off, off)
      modifies this`disk, this`inode, this`log, this`table, this`owner
      ensures LedgerOk()
      ensures r.Panic? ==> SpareAt(sb, v, i, off, off + n) < 0
      ensures r.Done? ==> Spare() == SpareAt(sb, v, i, off, off + n)
      ensures r.Done? ==> r.value == off + n && InWrite(v, log0, Now(), log.blocks, i, off, n, off + n, src, use)
    {
      use := LogUse({}, {}, {});
      var cur := off;
      while cur - off < n
        invariant off <= cur <= off + n && Spare() == SpareAt(sb, v, i, off, cur)
        invariant LedgerOk() && InWrite(v, log0, Now(), log.blocks, i, off, n, cur, src, use)
      {
        cur, use :- WriteRound(i, src, off, n, cur, v, log0, use);
      }
      return Done(cur), use;
    }

    /** One round of writei's loop: bmap, memmove, log_write; returns the offset it has reached. */
    method WriteRound(i: nat, src: seq<byte>, off: nat, n: nat, cur: nat, ghost v: View, ghost log0: set<nat>,
                      ghost u: LogUse)
      returns (r: Outcome<nat>, ghost u': LogUse)
      requires LedgerOk() && InWrite(v, log0, Now(), log.blocks, i, off, n, cur, src, u)
      requires off <= cur < off + n && n <= |src| && off <= v.inodes[i].size && off + n <= MAXFILE * BSIZE
      requires Spare() == SpareAt(sb, v, i, off, cur)
      modifies this`disk, this`inode, this`log, this`table, this`owner
      ensures LedgerOk()
      ensures r.Panic? ==> SpareAt(sb, v, i, off, off + n) < 0
      ensures r.Done? ==> Spare() == SpareAt(sb, v, i, off, r.value)
      ensures r.Done? ==> cur < r.value <= off + n && InWrite(v, log0, Now(), log.blocks, i, off, n, r.value, src, u')
    {
      u' := u;
      var m, next := Chunk(cur, off + n - cur);
      var piece := src[cur - off..next - off];
      ghost var start, log1 := Now(), log.blocks;
      SpareSpent(sb, v, table[i], i, off, n, cur, next);
      var _, maps :- WriteBlock(i, cur, piece, next);
      u' := LogMore(u, table[i], cur / BSIZE, maps);
      WriteContinues(v, log0, start, log1, Now(), log.blocks, i, off, n, cur, next, piece, src, u, maps);
      return Done(next), u';
    }

    /** Writes piece into the block of byte off, allocating that block if it is the next one. */
    method WriteBlock(i: nat, off: nat, piece: seq<byte>, ghost next: nat)
      returns (r: Outcome<()>, ghost maps: set<nat>)
      requires LedgerOk() && i < sb.ninodes && off / BSIZE < MAXFILE && off % BSIZE + |piece| <= BSIZE
        && next == off + |piece|
      modifies this`disk, this`inode, this`log, this`table, this`owner
      ensures LedgerOk()
      ensures r.Panic? <==> old(Spare()) < |Missing(old(table)[i], off / BSIZE)|
      ensures r.Done? ==> Spare() == old(Spare()) - |Missing(old(table)[i], off / BSIZE)|
      ensures r.Done? ==>
        && OnlyAddrs(old(Now()), Now(), i) && Filled(old(table)[i], table[i], Missing(old(table)[i], off / BSIZE))
        && Overlaid(old(Now()), Now(), i, off, next, piece)
        && BlockLogged(old(log.blocks), log.blocks, old(table)[i], table[i], off / BSIZE, maps)
    {
      maps := {};
      var b;
      b, maps :- Bmap(i, off / BSIZE);
      ghost var mid, log1 := Now(), log.blocks;
      Memmove(b, off % BSIZE, piece);
      CoversWrite(home, mid.disk, disk, b, log1, log.blocks);
      BlockOverlaid(sb, old(Now()), mid, i, off, next, piece, disk);
      return Done(()), maps;
    }

    /** Stores a piece of data inside one block, through the log. */
    method Memmove(b: nat, at: nat, piece: seq<byte>)
      requires b < |disk| && at + |piece| <= BSIZE
      modifies this`disk, this`log
      ensures Patched(old(disk), disk, b, at, piece) && log.blocks == old(log.blocks) + {b}
    {
      disk := disk[b := disk[b][..at] + piece + disk[b][at + |piece|..]];
      LogWrite(b);
    }

    /** Frees exactly the blocks of inode i; never halts, because each of them is marked in use and named once. */
    method Itrunc(i: nat)
      requires Valid() && i < sb.ninodes
      modifies this`disk, this`dinode, this`inode, this`log, this`table, this`owner
      ensures Valid()
      ensures Files() == old(Files())[i := []]
      ensures inode == old(inode)[i := old(inode[i]).(addrs := NoAddrs(), size := 0)]
      ensures forall b: nat :: b < sb.size ==>
                (InUse(sb, disk, b) <==>
                  old(InUse(sb, disk, b)) && (b < sb.datastart || !old(Names(inode[i], disk, b))))
      ensures log.blocks == old(log.blocks) + TruncMaps(sb, old(table)[i]) + {InodeBlock(sb, i)}
      ensures AllLogged(old(disk), old(dinode), old(log.blocks))
    {
      ghost var v := Now();
      FreeBlocks(i);
      DrainingEnds(sb, v, i, disk);
      inode := inode[i := inode[i].(size := 0)];
      assert inode == Emptied(v, i).inodes;
      table, owner := Emptied(v, i).table, Emptied(v, i).owner;
      Iupdate(i);
      FilesTruncated(sb, v, i, disk);
      NamedBlocks(sb, v, i);
      LogsAll(old(disk), old(dinode), old(log.blocks));
    }

    /** itrunc, which began in state v with log0 logged, has come to slot k, and to inode address x. */
    ghost predicate Freeing(v: View, log0: set<nat>, i: nat, k: nat, x: nat)
      requires i < |v.inodes| && i < |v.table| && k <= MAXFILE + 1
      reads this
    {
      && Draining(sb, v, i, k, disk) && Cut(v.inodes, inode, i, x) && MapsLogged(sb, v.table[i], k, log0, log.blocks)
      && Covers(home, disk, log.blocks)
    }

    /** Both halves of itrunc: afterwards no address is left. */
    method FreeBlocks(i: nat)
      requires LedgerOk() && i < sb.ninodes
      modifies this`disk, this`inode, this`log
      ensures Freeing(old(Now()), old(log.blocks), i, MAXFILE + 1, NDIRECT + 1)
      ensures inode == old(inode)[i := old(inode[i]).(addrs := NoAddrs())]
    {
      ghost var v, log0 := Now(), log.blocks;
      FreeDirect(i, v, log0, NDIRECT);
      FreeIndirect(i, v, log0, NDIRECT, MAXFILE, MAXFILE + 1);
      assert inode[i].addrs == NoAddrs();
    }

    /** The first loop of itrunc. */
    method FreeDirect(i: nat, ghost v: View, ghost log0: set<nat>, ghost n: nat)
      requires LedgerOk() && i < sb.ninodes && v == Now() && log0 == log.blocks && n == NDIRECT
      modifies this`disk, this`inode, this`log
      ensures Freeing(v, log0, i, n, n)
    {
      DrainingStarts(sb, v, i);
      MapsLoggedNone(sb, v.table[i], log0);
      CutNone(inode, i);
      var k := 0;
      while k < NDIRECT
        invariant k <= NDIRECT && Freeing(v, log0, i, k, k)
      {
        ghost var next := k + 1;
        FreeAddr(i, k, v, log0, next);
        k := k + 1;
      }
    }

    /** Frees the block of address k, if there is one, and clears the address. */
    method FreeAddr(i: nat, k: nat, ghost v: View, ghost log0: set<nat>, ghost next: nat)
      requires Ledger(sb, v) && i < |v.inodes| && k < NDIRECT && next == k + 1 && Freeing(v, log0, i, k, k)
      modifies this`disk, this`inode, this`log
      ensures Freeing(v, log0, i, next, next)
    {
      var b := inode[i].addrs[k];
      assert b == Addr(v.inodes[i], v.disk, k) == v.table[i][k];
      ghost var log1, inode0 := log.blocks, inode;
      if b != 0 {
        FreeSlot(i, b, v, k, next);
        inode := inode[i := inode[i].(addrs := inode[i].addrs[k := 0])];
      } else {
        DrainingSkips(sb, v, i, k, disk);
      }
      CutNext(v.inodes, inode0, inode, i, k, next);
      MapsLoggedNext(sb, v.table[i], k, next, log0, log1, log.blocks);
    }

    /** Frees the block of slot k, which is still in use, so that bfree cannot halt. */
    method FreeSlot(i: nat, b: nat, ghost v: View, ghost k: nat, ghost next: nat)
      requires Ledger(sb, v) && i < |v.inodes| && k <= MAXFILE && next == k + 1 && b == v.table[i][k] != 0
      requires Draining(sb, v, i, k, disk) && Covers(home, disk, log.blocks)
      modifies this`disk, this`log
      ensures Draining(sb, v, i, next, disk) && log.blocks == old(log.blocks) + SlotMap(sb, v.table[i], k)
      ensures Covers(home, disk, log.blocks)
    {
      DrainingFrees(sb, v, i, k, disk);
      var r := Bfree(b);
      CoversWrite(home, old(disk), disk, BitmapBlock(sb, b), old(log.blocks), log.blocks);
    }

    /** The second half of itrunc: the entries of the indirect block, then the indirect block. */
    method FreeIndirect(i: nat, ghost v: View, ghost log0: set<nat>, ghost n: nat, ghost last: nat, ghost end: nat)
      requires Ledger(sb, v) && i < |v.inodes| && n == NDIRECT && last == MAXFILE && end == last + 1
      requires Freeing(v, log0, i, n, n)
      modifies this`disk, this`inode, this`log
      ensures Freeing(v, log0, i, end, n + 1)
    {
      var ind := inode[i].addrs[NDIRECT];
      if ind == 0 {
        DrainingNoIndirect(sb, v, i, disk);
        FreedMapsSkip(sb, v.table[i], n, end);
        return;
      }
      assert ind == Addr(v.inodes[i], v.disk, MAXFILE) == v.table[i][MAXFILE];
      FreeEntries(i, ind, v, log0, n, last);
      FreeMap(i, ind, v, log0, n, last, end);
    }

    /** Frees the indirect block itself. */
    method FreeMap(i: nat, ind: nat, ghost v: View, ghost log0: set<nat>, ghost n: nat, ghost last: nat, ghost end: nat)
      requires Ledger(sb, v) && i < |v.inodes| && n == NDIRECT && last == MAXFILE && end == last + 1
      requires Freeing(v, log0, i, last, n) && ind == v.table[i][MAXFILE] != 0
      modifies this`disk, this`inode, this`log
      ensures Freeing(v, log0, i, end, n + 1)
    {
      ghost var log1 := log.blocks;
      FreeSlot(i, ind, v, last, end);
      inode := inode[i := inode[i].(addrs := inode[i].addrs[NDIRECT := 0])];
      MapsLoggedNext(sb, v.table[i], last, end, log0, log1, log.blocks);
    }

    /** The loop over the entries of the indirect block. */
    method FreeEntries(i: nat, ind: nat, ghost v: View, ghost log0: set<nat>, ghost n: nat, ghost last: nat)
      requires Ledger(sb, v) && i < |v.inodes| && n == NDIRECT && last == MAXFILE && Freeing(v, log0, i, n, n)
      requires ind == v.inodes[i].addrs[NDIRECT] == v.table[i][MAXFILE] != 0
      modifies this`disk, this`log
      ensures Freeing(v, log0, i, last, n)
    {
      var j := 0;
      ghost var k := n;
      while j < NINDIRECT
        invariant j <= NINDIRECT && k == n + j && Freeing(v, log0, i, k, n)
      {
        ghost var next := k + 1;
        FreeEntry(i, ind, j, v, log0, n, k, next);
        j, k := j + 1, next;
      }
    }

    /** Frees the block of slot k, if the indirect block names one. */
    method FreeEntry(i: nat, ind: nat, j: nat, ghost v: View, ghost log0: set<nat>, ghost n: nat, ghost k: nat,
                     ghost next: nat)
      requires Ledger(sb, v) && i < |v.inodes| && j < NINDIRECT && k == NDIRECT + j && next == k + 1
      requires ind == v.inodes[i].addrs[NDIRECT] == v.table[i][MAXFILE] != 0 && Freeing(v, log0, i, k, n)
      modifies this`disk, this`log
      ensures Freeing(v, log0, i, next, n)
    {
      assert Addr(v.inodes[i], v.disk, k) == v.table[i][k];
      ghost var log1 := log.blocks;
      var b := GetWord(disk[ind], j);
      if b != 0 {
        FreeSlot(i, b, v, k, next);
      } else {
        DrainingSkips(sb, v, i, k, disk);
      }
      MapsLoggedNext(sb, v.table[i], k, next, log0, log1, log.blocks);
    }

    /** The truncated inode becomes free, in memory and on disk. */
    method FreeInode(i: nat)
      requires Valid() && i < sb.ninodes && inode[i].size == 0
      modifies this`dinode, this`inode, this`log
      ensures Valid() && inode == old(inode)[i := old(inode[i]).(kind := 0)] && Files() == old(Files())
      ensures log == Journal(old(log.blocks) + {InodeBlock(sb, i)}, |old(log.blocks)|)
    {
      LedgerKeepsFields(sb, Now(), i, inode[i].(kind := 0));
      inode := inode[i := inode[i].(kind := 0)];
      Iupdate(i);
      assert Files() == old(Files());
    }

    /** Opens a log transaction, when none is open. */
    method BeginOp()
      requires log.blocks == {}
      modifies this`log
      ensures log == Journal({}, 0) && (old(Valid()) ==> Valid()) && Files() == old(Files())
    {
      log := Journal({}, 0);
    }

    /**
     * Commits the transaction, unless one of its log_writes has halted: the blocks in the log, and no others, are
     * written to where they belong. That is all there was to write.
     */
    method EndOp() returns (r: Outcome<()>)
      requires Valid()
      modifies this`log, this`home, this`homeInodes
      ensures r.Panic? <==> old(log.found) >= LogRoom(sb)
      ensures r.Done? ==> log == Journal({}, 0) && Committed()
      ensures Valid()
    {
      if log.found >= LogRoom(sb) {
        return Panic;
      }
      CoveredIsInstalled(sb, home, disk, homeInodes, dinode, log.blocks);
      home := Installed(home, disk, log.blocks);
      homeInodes := InstalledInodes(sb, homeInodes, dinode, log.blocks);
      log := Journal({}, 0);
      return Done(());
    }

    /** Copies the cached inode to disk. */
    method Iupdate(i: nat)
      requires i < |inode| == |dinode|
      modifies this`dinode, this`log
      ensures dinode == old(dinode)[i := inode[i]]
      ensures log == Journal(old(log.blocks) + {InodeBlock(sb, i)}, |old(log.blocks)|)
    {
      dinode := dinode[i := inode[i]];
      LogWrite(InodeBlock(sb, i));
    }
  }
}
