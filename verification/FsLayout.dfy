/** The layout of an xv6 disk and its allocation bitmap. */
module FsLayout {
  import opened Basics
  import opened Bytes

  const BSIZE: nat := 512
  const BPB: nat := 8 * BSIZE
  const NDIRECT: nat := 12
  const NINDIRECT: nat := BSIZE / 4
  const MAXFILE: nat := NDIRECT + NINDIRECT
  const IPB: nat := 8
  const MAXOPBLOCKS: nat := 10
  const LOGSIZE: nat := MAXOPBLOCKS * 3
  const T_DEV: nat := 3

  type Block = s: seq<byte> | |s| == BSIZE witness seq(BSIZE, i => 0)

  function ZeroBlock(): (z: Block)
    ensures forall i :: 0 <= i < BSIZE ==> z[i] == 0
  {
    seq(BSIZE, i => 0)
  }

  type Addrs = a: seq<nat> | |a| == NDIRECT + 1 witness seq(NDIRECT + 1, i => 0)

  /** An inode's contents: the fields that live on disk and are cached in memory. */
  datatype Dinode = Dinode(kind: nat, nlink: nat, size: nat, addrs: Addrs)

  /** The sizes of the disk and its log, and where its regions start; everything below datastart is metadata. */
  datatype Layout =
    Layout(size: nat, ninodes: nat, nlog: nat, inodestart: nat, bmapstart: nat, datastart: nat)

  type Superblock = sb: Layout | LayoutOk(sb) witness Layout(1, 0, LOGSIZE, 0, 0, 1)

  /** The log has room for one operation, the inodes are before the bitmap, and that is before the data. */
  ghost predicate LayoutOk(sb: Layout) {
    && MAXOPBLOCKS + 1 < sb.nlog
    && 0 < sb.datastart <= sb.size < WORD_LIMIT
    && (forall i: nat :: i < sb.ninodes ==> InodeBlock(sb, i) < sb.bmapstart)
    && (forall b: nat :: b < sb.size ==> BitmapBlock(sb, b) < sb.datastart)
  }

  /** BBLOCK: the bitmap block that holds the bit of block b. */
  function BitmapBlock(sb: Layout, b: nat): nat {
    sb.bmapstart + b / BPB
  }

  /** IBLOCK: the inode block that holds inode i. */
  function InodeBlock(sb: Layout, i: nat): nat {
    sb.inodestart + i / IPB
  }

  /** How many blocks log_write lets into the log: one block of the log on disk is its header. */
  function LogRoom(sb: Superblock): (n: nat)
    ensures MAXOPBLOCKS < n <= LOGSIZE && n < sb.nlog && (n == LOGSIZE || n + 1 == sb.nlog)
  {
    Min(LOGSIZE, sb.nlog - 1)
  }

  /** The blocks in the open transaction, and the most that a log_write has found there before its own. */
  datatype Journal = Journal(blocks: set<nat>, found: nat)

  type Log = j: Journal | j.found <= |j.blocks| witness Journal({}, 0)

  /** Whatever is not in the log is as it was committed. */
  ghost predicate Covers(home: seq<Block>, disk: seq<Block>, logged: set<nat>) {
    |home| == |disk| && forall b: nat {:trigger home[b]} :: b < |disk| && b !in logged ==> disk[b] == home[b]
  }

  ghost predicate CoversInodes(sb: Layout, home: seq<Dinode>, dinode: seq<Dinode>, logged: set<nat>) {
    && |home| == |dinode|
    && forall j: nat {:trigger home[j]} :: j < |dinode| && InodeBlock(sb, j) !in logged ==> dinode[j] == home[j]
  }

  /** What a commit makes of the committed blocks: it writes those in the log, and no others. */
  ghost function Installed(home: seq<Block>, disk: seq<Block>, logged: set<nat>): seq<Block>
    requires |home| == |disk|
  {
    seq(|disk|, b requires 0 <= b < |disk| => if b in logged then disk[b] else home[b])
  }

  ghost function InstalledInodes(sb: Layout, home: seq<Dinode>, dinode: seq<Dinode>, logged: set<nat>): seq<Dinode>
    requires |home| == |dinode|
  {
    seq(|dinode|, j requires 0 <= j < |dinode| => if InodeBlock(sb, j) in logged then dinode[j] else home[j])
  }

  /** So what is not lost in a crash after a commit is all that was written before it, if the log covers it. */
  lemma CoveredIsInstalled(sb: Layout, home: seq<Block>, disk: seq<Block>, inodes: seq<Dinode>, dinode: seq<Dinode>,
                           logged: set<nat>)
    requires Covers(home, disk, logged) && CoversInodes(sb, inodes, dinode, logged)
    ensures Installed(home, disk, logged) == disk && InstalledInodes(sb, inodes, dinode, logged) == dinode
  {
  }

  lemma CoversWrite(home: seq<Block>, disk: seq<Block>, disk': seq<Block>, b: nat, logged: set<nat>, logged': set<nat>)
    requires Covers(home, disk, logged) && |disk'| == |disk| && logged <= logged' && b in logged'
    requires forall c: nat :: c < |disk| && c != b ==> disk'[c] == disk[c]
    ensures Covers(home, disk', logged')
  {
  }

  lemma CoversTwo(home: seq<Block>, disk: seq<Block>, disk': seq<Block>, b: nat, m: nat, logged: set<nat>,
                  logged': set<nat>)
    requires Covers(home, disk, logged) && |disk'| == |disk| && logged <= logged' && b in logged' && m in logged'
    requires forall c: nat :: c < |disk| && c != b && c != m ==> disk'[c] == disk[c]
    ensures Covers(home, disk', logged')
  {
  }

  /** Since one state of a transaction every block that has changed has been logged. */
  lemma ChangesLogged(home: seq<Block>, disk: seq<Block>, disk': seq<Block>, logged: set<nat>, logged': set<nat>)
    requires Covers(home, disk, logged) && Covers(home, disk', logged') && logged <= logged'
    ensures forall b: nat :: b < |disk| && disk'[b] != disk[b] ==> b in logged'
  {
    forall b: nat | b < |disk| && disk'[b] != disk[b]
      ensures b in logged'
    {
      assert home[b] == home[b];
    }
  }

  lemma InodeChangesLogged(sb: Layout, home: seq<Dinode>, dinode: seq<Dinode>, dinode': seq<Dinode>, logged: set<nat>,
                           logged': set<nat>)
    requires CoversInodes(sb, home, dinode, logged) && CoversInodes(sb, home, dinode', logged') && logged <= logged'
    ensures forall j: nat :: j < |dinode| && dinode'[j] != dinode[j] ==> InodeBlock(sb, j) in logged'
  {
    forall j: nat | j < |dinode| && dinode'[j] != dinode[j]
      ensures InodeBlock(sb, j) in logged'
    {
      assert home[j] == home[j];
    }
  }

  ghost predicate DiskOk(sb: Superblock, disk: seq<Block>) {
    |disk| == sb.size
  }

  /** The bitmap says that block b is in use. */
  predicate InUse(sb: Superblock, disk: seq<Block>, b: nat)
    requires DiskOk(sb, disk) && b < sb.size
  {
    Bit(disk[BitmapBlock(sb, b)][b % BPB / 8], b % 8)
  }

  /** Every block below n is in use. */
  ghost predicate UsedBelow(sb: Superblock, disk: seq<Block>, n: nat)
    requires DiskOk(sb, disk)
  {
    forall c: nat :: c < n && c < sb.size ==> InUse(sb, disk, c)
  }

  /** The disk after the bit of block b is set or cleared. */
  function Mark(sb: Superblock, disk: seq<Block>, b: nat, used: bool): (out: seq<Block>)
    requires DiskOk(sb, disk) && b < sb.size
    ensures DiskOk(sb, out)
    ensures forall c: nat :: c < sb.size ==> InUse(sb, out, c) == if c == b then used else InUse(sb, disk, c)
    ensures forall c: nat :: c < sb.size && c != BitmapBlock(sb, b) ==> out[c] == disk[c]
  {
    MarkChangesOneBit(sb, disk, b, used);
    WithBit(sb, disk, b, used)
  }

  function WithBit(sb: Superblock, disk: seq<Block>, b: nat, used: bool): seq<Block>
    requires DiskOk(sb, disk) && b < sb.size
  {
    var x := disk[BitmapBlock(sb, b)][b % BPB / 8];
    disk[BitmapBlock(sb, b) := disk[BitmapBlock(sb, b)][b % BPB / 8 := if used then RaiseByte(x, b % 8)
      else LowerByte(x, b % 8)]]
  }

  lemma MarkChangesOneBit(sb: Superblock, disk: seq<Block>, b: nat, used: bool)
    requires DiskOk(sb, disk) && b < sb.size
    ensures forall c: nat :: c < sb.size ==>
      InUse(sb, WithBit(sb, disk, b, used), c) == if c == b then used else InUse(sb, disk, c)
  {
    var x := disk[BitmapBlock(sb, b)][b % BPB / 8];
    var y := if used then RaiseByte(x, b % 8) else LowerByte(x, b % 8);
    forall c: nat | c < sb.size
      ensures InUse(sb, WithBit(sb, disk, b, used), c) == if c == b then used else InUse(sb, disk, c)
    {
      MarkOneBit(sb, disk, b, y, used, c);
    }
  }

  lemma MarkOneBit(sb: Superblock, disk: seq<Block>, b: nat, y: byte, used: bool, c: nat)
    requires DiskOk(sb, disk) && b < sb.size && c < sb.size
    requires forall j: nat :: Bit(y, j) == if j == b % 8 then used else Bit(disk[BitmapBlock(sb, b)][b % BPB / 8], j)
    ensures InUse(sb, disk[BitmapBlock(sb, b) := disk[BitmapBlock(sb, b)][b % BPB / 8 := y]], c)
         == if c == b then used else InUse(sb, disk, c)
  {
    BitPosition(b, c);
    assert BitmapBlock(sb, b) < |disk| && BitmapBlock(sb, c) < |disk|;
  }

  /** A block number is determined by its bitmap block, byte and bit. */
  lemma BitPosition(b: nat, c: nat)
    ensures b / BPB == c / BPB && b % BPB / 8 == c % BPB / 8 && b % 8 == c % 8 ==> b == c
  {
    SplitPosition(b);
    SplitPosition(c);
  }

  lemma SplitPosition(b: nat)
    ensures b == BPB * (b / BPB) + 8 * (b % BPB / 8) + b % 8
  {
    var x := b % BPB;
    assert b == BPB * (b / BPB) + x;
    assert b == 8 * (512 * (b / BPB)) + x;
    assert b % 8 == x % 8;
  }

  /** Block b is taken from the free blocks and zeroed; no other bit and no other block changes. */
  ghost predicate Taken(sb: Superblock, disk: seq<Block>, disk': seq<Block>, b: nat) {
    && DiskOk(sb, disk) && DiskOk(sb, disk')
    && sb.datastart <= b < sb.size && !InUse(sb, disk, b) && disk'[b] == ZeroBlock()
    && (forall c: nat :: c < sb.size ==> (InUse(sb, disk', c) <==> c == b || InUse(sb, disk, c)))
    && (forall c: nat :: c < sb.size && c != b && c != BitmapBlock(sb, b) ==> disk'[c] == disk[c])
  }

  /** Word e of block ind becomes w; no other word and no other block changes. */
  ghost predicate EntryWritten(disk: seq<Block>, disk': seq<Block>, ind: nat, e: nat, w: nat) {
    && |disk'| == |disk| && ind < |disk| && e < NINDIRECT
    && GetWord(disk'[ind], e) == w
    && (forall x: nat :: x < NINDIRECT && x != e ==> GetWord(disk'[ind], x) == GetWord(disk[ind], x))
    && (forall c: nat :: c < |disk| && c != ind ==> disk'[c] == disk[c])
  }

  /** The bitmap lies in the metadata, so it is unchanged when all metadata is. */
  lemma SameBits(sb: Superblock, disk: seq<Block>, disk': seq<Block>)
    requires DiskOk(sb, disk) && DiskOk(sb, disk')
    requires forall c: nat :: c < sb.datastart ==> disk'[c] == disk[c]
    ensures forall c: nat :: c < sb.size ==> InUse(sb, disk', c) == InUse(sb, disk, c)
  {
    forall c: nat | c < sb.size
      ensures InUse(sb, disk', c) == InUse(sb, disk, c)
    {
      assert BitmapBlock(sb, c) < sb.datastart;
    }
  }
}
