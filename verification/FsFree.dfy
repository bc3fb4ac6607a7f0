/** Giving blocks back: what itrunc frees, and what the bitmap means in terms of addresses alone. */
module FsFree {
  import opened Basics
  import opened Bytes
  import opened FsContent
  import opened FsLayout
  import opened FsLedger

  /** Some address of the inode names block b. */
  ghost predicate Names(d: Dinode, disk: seq<Block>, b: nat) {
    exists k: nat :: k <= MAXFILE && Addr(d, disk, k) == b
  }

  /**
   * The bitmap marks exactly the metadata and the blocks that some inode names; no block is named twice.
   */
  lemma BitmapIsOwnership(sb: Superblock, v: View)
    requires Ledger(sb, v)
    ensures forall b: nat :: 0 < b < sb.size ==>
              (InUse(sb, v.disk, b) <==> b < sb.datastart || exists i: nat ::
                i < |v.inodes| && Names(v.inodes[i], v.disk, b))
    ensures forall i: nat, k: nat, j: nat, l: nat ::
              (i < |v.inodes| && j < |v.inodes| && k <= MAXFILE && l <= MAXFILE
               && Addr(v.inodes[i], v.disk, k) == Addr(v.inodes[j], v.disk, l) != 0) ==> i == j && k == l
    ensures forall i: nat, k: nat :: i < |v.inodes| && k <= MAXFILE && Addr(v.inodes[i], v.disk, k) != 0 ==>
              sb.datastart <= Addr(v.inodes[i], v.disk, k) < sb.size
  {
    forall b: nat | 0 < b < sb.size
      ensures InUse(sb, v.disk, b) <==> b < sb.datastart || exists i: nat ::
        i < |v.inodes| && Names(v.inodes[i], v.disk, b)
    {
      if b in v.owner {
        assert Owned(v.owner, b);
        var p := v.owner[b];
        assert Addr(v.inodes[p.inum], v.disk, p.slot) == b;
        assert Names(v.inodes[p.inum], v.disk, b);
      }
      if i: nat :| i < |v.inodes| && Names(v.inodes[i], v.disk, b) {
        var k: nat :| k <= MAXFILE && Addr(v.inodes[i], v.disk, k) == b;
        assert v.table[i][k] == b;
      }
    }
  }

  /** The blocks in slots k.. of a block map. */
  ghost function BlocksFrom(m: BlockMap, k: nat): set<nat> {
    set s: nat | k <= s <= MAXFILE && m[s] != 0 :: m[s]
  }

  function EmptyMap(): (m: BlockMap)
    ensures forall k :: 0 <= k <= MAXFILE ==> m[k] == 0
  {
    seq(MAXFILE + 1, i => 0)
  }

  function NoAddrs(): (a: Addrs)
    ensures forall k :: 0 <= k <= NDIRECT ==> a[k] == 0
  {
    seq(NDIRECT + 1, i => 0)
  }

  /** The view with inode i emptied. */
  ghost function Emptied(v: View, i: nat): View
    requires i < |v.inodes| && i < |v.table|
  {
    v.(inodes := v.inodes[i := v.inodes[i].(addrs := NoAddrs(), size := 0)],
       table := v.table[i := EmptyMap()],
       owner := v.owner - BlocksFrom(v.table[i], 0))
  }

  /**
   * While inode i is being emptied: the blocks in slots k.. are still marked, everything else is as if i were empty.
   */
  ghost predicate Draining(sb: Superblock, v: View, i: nat, k: nat, disk: seq<Block>)
    requires i < |v.inodes| && i < |v.table|
  {
    && DiskOk(sb, disk) && |v.disk| == |disk|
    && (forall c: nat :: sb.datastart <= c < sb.size ==> disk[c] == v.disk[c])
    && (forall b: nat {:trigger InUse(sb, disk, b)} :: b < sb.size ==>
          (InUse(sb, disk, b) <==> b < sb.datastart || b in Emptied(v, i).owner || b in BlocksFrom(v.table[i], k)))
  }

  lemma DrainingStarts(sb: Superblock, v: View, i: nat)
    requires Ledger(sb, v) && i < |v.inodes|
    ensures Draining(sb, v, i, 0, v.disk)
  {
  }

  lemma DrainingSkips(sb: Superblock, v: View, i: nat, k: nat, disk: seq<Block>)
    requires i < |v.inodes| && i < |v.table| && k <= MAXFILE && v.table[i][k] == 0 && Draining(sb, v, i, k, disk)
    ensures Draining(sb, v, i, k + 1, disk)
  {
    assert BlocksFrom(v.table[i], k) == BlocksFrom(v.table[i], k + 1);
  }

  /** The block in slot k is still marked in use, so freeing it cannot halt, and it is in no later slot. */
  lemma DrainingFrees(sb: Superblock, v: View, i: nat, k: nat, disk: seq<Block>)
    requires Ledger(sb, v) && i < |v.inodes| && k <= MAXFILE && v.table[i][k] != 0 && Draining(sb, v, i, k, disk)
    ensures v.table[i][k] < sb.size && InUse(sb, disk, v.table[i][k])
    ensures Draining(sb, v, i, k + 1, Mark(sb, disk, v.table[i][k], false))
  {
    var b := v.table[i][k];
    assert b in BlocksFrom(v.table[i], k);
    var disk' := Mark(sb, disk, b, false);
    assert BitmapBlock(sb, b) < sb.datastart;
    forall c: nat | c < sb.size
      ensures InUse(sb, disk', c) <==>
        c < sb.datastart || c in Emptied(v, i).owner || c in BlocksFrom(v.table[i], k + 1)
    {
      assert b in BlocksFrom(v.table[i], 0);
      assert c in BlocksFrom(v.table[i], k) <==> c == b || c in BlocksFrom(v.table[i], k + 1);
      assert b !in BlocksFrom(v.table[i], k + 1);
    }
  }

  /** Without an indirect block there are no blocks after the direct ones. */
  lemma DrainingNoIndirect(sb: Superblock, v: View, i: nat, disk: seq<Block>)
    requires Ledger(sb, v) && i < |v.inodes| && v.inodes[i].addrs[NDIRECT] == 0 && Draining(sb, v, i, NDIRECT, disk)
    ensures Draining(sb, v, i, MAXFILE + 1, disk) && forall k :: NDIRECT <= k <= MAXFILE ==> v.table[i][k] == 0
  {
    forall k: nat | NDIRECT <= k <= MAXFILE
      ensures v.table[i][k] == 0
    {
      assert v.table[i][k] == Addr(v.inodes[i], v.disk, k);
    }
    assert BlocksFrom(v.table[i], NDIRECT) == BlocksFrom(v.table[i], MAXFILE + 1);
  }

  lemma DrainingEnds(sb: Superblock, v: View, i: nat, disk: seq<Block>)
    requires Ledger(sb, v) && i < |v.inodes| && Draining(sb, v, i, MAXFILE + 1, disk)
    ensures Ledger(sb, Emptied(v, i).(disk := disk))
  {
    var w := Emptied(v, i).(disk := disk);
    forall j: nat, k: nat | j < |w.inodes| && k <= MAXFILE
      ensures w.table[j][k] == Addr(w.inodes[j], disk, k)
      ensures w.table[j][k] != 0 ==> w.table[j][k] in w.owner && w.owner[w.table[j][k]] == Place(j, k)
    {
      assert v.table[j][k] == Addr(v.inodes[j], v.disk, k);
      assert v.table[j][MAXFILE] == Addr(v.inodes[j], v.disk, MAXFILE);
      assert j != i && v.table[j][k] != 0 ==> v.table[j][k] !in BlocksFrom(v.table[i], 0);
    }
    forall b: nat | Owned(w.owner, b)
      ensures sb.datastart <= b < sb.size && w.owner[b].inum < |w.table| && w.owner[b].slot <= MAXFILE
      ensures w.table[w.owner[b].inum][w.owner[b].slot] == b
    {
      assert Owned(v.owner, b);
      var p := v.owner[b];
      assert p.inum != i;
    }
  }

  /** Emptying inode i leaves every other file as it was. */
  lemma EmptiedKeepsOthers(sb: Superblock, v: View, i: nat, disk: seq<Block>, j: nat)
    requires Ledger(sb, v) && DenseAll(v) && i < |v.inodes| && j < |v.inodes| && j != i && |disk| == |v.disk|
    requires forall c: nat :: sb.datastart <= c < sb.size ==> disk[c] == v.disk[c]
    ensures Content(v.inodes[j], disk) == Content(v.inodes[j], v.disk)
  {
    var was, now := Content(v.inodes[j], v.disk), Content(v.inodes[j], disk);
    forall k: nat | k < |was|
      ensures now[k] == was[k]
    {
      var s := k / BSIZE;
      assert v.table[j][s] == Addr(v.inodes[j], v.disk, s);
      assert v.table[j][MAXFILE] == Addr(v.inodes[j], v.disk, MAXFILE);
    }
  }

  /** Emptying inode i makes its file empty and leaves every other file as it was. */
  lemma FilesTruncated(sb: Superblock, v: View, i: nat, disk: seq<Block>)
    requires Ledger(sb, v) && DenseAll(v) && i < |v.inodes| && |disk| == |v.disk|
    requires forall c: nat :: sb.datastart <= c < sb.size ==> disk[c] == v.disk[c]
    ensures AllFiles(Emptied(v, i).inodes, disk) == AllFiles(v.inodes, v.disk)[i := []]
  {
    var w := Emptied(v, i);
    forall j | 0 <= j < |v.inodes|
      ensures Content(w.inodes[j], disk) == if j == i then [] else Content(v.inodes[j], v.disk)
    {
      if j != i {
        EmptiedKeepsOthers(sb, v, i, disk, j);
      }
    }
    OneFileChanged(v.inodes, v.disk, w.inodes, disk, i, []);
  }

  /** The blocks of inode i are the ones that its addresses name. */
  lemma NamedBlocks(sb: Superblock, v: View, i: nat)
    requires Ledger(sb, v) && i < |v.inodes|
    ensures forall b: nat :: 0 < b ==> (b in BlocksFrom(v.table[i], 0) <==> Names(v.inodes[i], v.disk, b))
  {
    forall b: nat | 0 < b
      ensures b in BlocksFrom(v.table[i], 0) <==> Names(v.inodes[i], v.disk, b)
    {
      forall k: nat | k <= MAXFILE
        ensures v.table[i][k] == Addr(v.inodes[i], v.disk, k)
      {
      }
    }
  }

  // ----- An empty disk

  /** Zeros, but for the bits of the first n blocks. */
  function BlankDisk(sb: Superblock, n: nat): (disk: seq<Block>)
    requires n <= sb.size
    ensures DiskOk(sb, disk) && forall b: nat :: b < sb.size ==> (InUse(sb, disk, b) <==> b < n)
  {
    if n == 0 then
      NoBits();
      seq(sb.size, i => ZeroBlock())
    else Mark(sb, BlankDisk(sb, n - 1), n - 1, true)
  }

  lemma NoBits()
    ensures forall k: nat :: !Bit(0, k)
  {
    forall k: nat ensures !Bit(0, k) { NoBit(k); }
  }

  lemma {:induction false} NoBit(k: nat)
    ensures !Bit(0, k)
  {
    if k > 0 {
      NoBit(k - 1);
    }
  }

  function EmptyView(sb: Superblock): View {
    View(BlankDisk(sb, sb.datastart), seq(sb.ninodes, i => Dinode(0, 0, 0, NoAddrs())),
      seq(sb.ninodes, i => EmptyMap()), map[])
  }

  lemma EmptyViewOk(sb: Superblock)
    ensures Ledger(sb, EmptyView(sb)) && DenseAll(EmptyView(sb))
  {
  }
}
