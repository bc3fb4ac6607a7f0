/** What freeing an inode writes to the log, and the inodes for which that is too much. */
module FsLog {
  import opened Basics
  import opened Bytes
  import opened FsContent
  import opened FsFree
  import opened FsLayout
  import opened FsLedger

  // ----- What truncation logs

  /** The bitmap block of the block in slot k, if there is one. */
  ghost function SlotMap(sb: Superblock, m: BlockMap, k: nat): set<nat>
    requires k <= MAXFILE
  {
    if m[k] != 0 then {BitmapBlock(sb, m[k])} else {}
  }

  /** The bitmap blocks of the blocks in slots 0..k - 1. */
  ghost function FreedMaps(sb: Superblock, m: BlockMap, k: nat): set<nat>
    requires k <= MAXFILE + 1
  {
    if k == 0 then {} else FreedMaps(sb, m, k - 1) + SlotMap(sb, m, k - 1)
  }

  lemma {:induction false} InFreedMaps(sb: Superblock, m: BlockMap, k: nat, x: nat)
    requires k <= MAXFILE + 1
    ensures x in FreedMaps(sb, m, k) <==> exists j: nat :: j < k && x in SlotMap(sb, m, j)
  {
    if k > 0 {
      InFreedMaps(sb, m, k - 1, x);
    }
  }

  /** The bitmap blocks of slots 0..k - 1 have been added to the log. */
  ghost predicate MapsLogged(sb: Superblock, m: BlockMap, k: nat, logged: set<nat>, logged': set<nat>)
    requires k <= MAXFILE + 1
  {
    logged' == logged + FreedMaps(sb, m, k)
  }

  lemma MapsLoggedNone(sb: Superblock, m: BlockMap, logged: set<nat>)
    ensures MapsLogged(sb, m, 0, logged, logged)
  {
  }

  lemma MapsLoggedNext(sb: Superblock, m: BlockMap, k: nat, next: nat, logged: set<nat>, logged': set<nat>,
                       logged'': set<nat>)
    requires k <= MAXFILE && next == k + 1 && MapsLogged(sb, m, k, logged, logged')
    requires logged'' == logged' + SlotMap(sb, m, k)
    ensures MapsLogged(sb, m, next, logged, logged'')
  {
  }

  /** Empty slots add nothing. */
  lemma {:induction false} FreedMapsSkip(sb: Superblock, m: BlockMap, lo: nat, hi: nat)
    requires lo <= hi <= MAXFILE + 1 && forall k :: lo <= k < hi ==> m[k] == 0
    ensures FreedMaps(sb, m, hi) == FreedMaps(sb, m, lo)
    decreases hi - lo
  {
    if lo < hi {
      FreedMapsSkip(sb, m, lo, hi - 1);
    }
  }

  // ----- When that is too much

  /** The bitmap blocks that freeing an inode writes. */
  ghost function TruncMaps(sb: Superblock, m: BlockMap): set<nat> {
    FreedMaps(sb, m, MAXFILE + 1)
  }

  /** In terms of the addresses: they are the bitmap blocks of the blocks that the inode names. */
  lemma FreedMapsNamed(sb: Superblock, v: View, i: nat, x: nat)
    requires Ledger(sb, v) && i < |v.inodes|
    ensures x in TruncMaps(sb, v.table[i]) <==>
            exists b: nat :: 0 < b && Names(v.inodes[i], v.disk, b) && BitmapBlock(sb, b) == x
  {
    InFreedMaps(sb, v.table[i], MAXFILE + 1, x);
    forall k: nat | k <= MAXFILE
      ensures v.table[i][k] == Addr(v.inodes[i], v.disk, k)
    {
    }
    if k: nat :| k < MAXFILE + 1 && x in SlotMap(sb, v.table[i], k) {
      assert Names(v.inodes[i], v.disk, v.table[i][k]);
    }
    if b: nat :| 0 < b && Names(v.inodes[i], v.disk, b) && BitmapBlock(sb, b) == x {
      var k: nat :| k <= MAXFILE && Addr(v.inodes[i], v.disk, k) == b;
      assert x in SlotMap(sb, v.table[i], k);
    }
  }

  /** Freeing the inode writes more blocks than a transaction reserves. */
  ghost predicate Exceeds(sb: Superblock, m: BlockMap) {
    |TruncMaps(sb, m)| + 1 > MAXOPBLOCKS
  }

  /** Freeing the inode fills the log, so that the second iupdate halts, though its block is in the log already. */
  ghost predicate Overruns(sb: Superblock, m: BlockMap) {
    |TruncMaps(sb, m)| + 1 >= LogRoom(sb)
  }

  /**
   * With the inode's own block the transaction has the blocks it
   * reserved exactly if the inode does not exceed them, and it has
   * filled the log exactly if the inode overruns it.
   */
  lemma FitsExactlyWhen(sb: Superblock, m: BlockMap, i: nat, logged: set<nat>)
    requires i < sb.ninodes && logged == TruncMaps(sb, m) + {InodeBlock(sb, i)}
    ensures |logged| <= MAXOPBLOCKS <==> !Exceeds(sb, m)
    ensures |logged| < LogRoom(sb) <==> !Overruns(sb, m)
  {
    var maps := TruncMaps(sb, m);
    InFreedMaps(sb, m, MAXFILE + 1, InodeBlock(sb, i));
    assert InodeBlock(sb, i) !in maps;
    assert |maps + {InodeBlock(sb, i)}| == |maps| + 1;
  }

  /** On a small disk no inode exceeds the reservation, and on one not much larger none overruns the log. */
  lemma SmallDiskFits(sb: Superblock, v: View, i: nat)
    requires Ledger(sb, v) && i < |v.inodes|
    ensures sb.size <= (MAXOPBLOCKS - 1) * BPB ==> !Exceeds(sb, v.table[i])
    ensures sb.size <= (LogRoom(sb) - 2) * BPB ==> !Overruns(sb, v.table[i])
  {
    if sb.size <= (MAXOPBLOCKS - 1) * BPB {
      FewMaps(sb, v, i, MAXOPBLOCKS - 1);
    }
    if sb.size <= (LogRoom(sb) - 2) * BPB {
      FewMaps(sb, v, i, LogRoom(sb) - 2);
    }
  }

  lemma FewMaps(sb: Superblock, v: View, i: nat, n: nat)
    requires Ledger(sb, v) && i < |v.inodes| && sb.size <= n * BPB
    ensures |TruncMaps(sb, v.table[i])| <= n
  {
    MapsBelow(sb, v, i, n, MAXFILE + 1);
  }

  lemma MapsBelow(sb: Superblock, v: View, i: nat, n: nat, end: nat)
    requires Ledger(sb, v) && i < |v.inodes| && sb.size <= n * BPB && end <= MAXFILE + 1
    ensures |FreedMaps(sb, v.table[i], end)| <= n
  {
    var maps, few := FreedMaps(sb, v.table[i], end), Interval(sb.bmapstart, n);
    IntervalSize(sb.bmapstart, n);
    forall x | x in maps
      ensures x in few
    {
      MapBelow(sb, v, i, n, end, x);
    }
    SubsetSize(maps, few);
  }

  lemma MapBelow(sb: Superblock, v: View, i: nat, n: nat, end: nat, x: nat)
    requires Ledger(sb, v) && i < |v.inodes| && sb.size <= n * BPB && end <= MAXFILE + 1
    requires x in FreedMaps(sb, v.table[i], end)
    ensures sb.bmapstart <= x < sb.bmapstart + n
  {
    InFreedMaps(sb, v.table[i], end, x);
    var j: nat :| j < end && x in SlotMap(sb, v.table[i], j);
    MapOfSmall(v.table[i][j], n);
  }

  lemma MapOfSmall(b: nat, n: nat)
    requires b < n * BPB
    ensures b / BPB < n
  {
  }

  // ----- Inodes for which it is

  /** A disk with the usual log, of 28 bitmap blocks. */
  const WIDE: Layout := Layout(27 * BPB + 80, 8, LOGSIZE, 32, 33, 61)

  /** How many blocks of a file can lie under bitmap blocks of their own. */
  const WIDTH: nat := 28

  const T_FILE: nat := 2

  lemma WideIsALayout()
    ensures LayoutOk(WIDE)
  {
  }

  /** The blocks of a file of n blocks under n bitmap blocks; its indirect block shares the first of these. */
  function Spread(n: nat, ind: bool, s: nat): nat {
    if s < n then 61 + s * BPB else if s == MAXFILE && ind then 62 else 0
  }

  /** The first file has n such blocks, and an indirect block if ind is set, but no links; all others are empty. */
  ghost predicate SpreadOut(v: View, n: nat, ind: bool) {
    && n <= WIDTH && (n > NDIRECT ==> ind) && LayoutOk(WIDE) && Ledger(WIDE, v) && v.inodes[0].size == n * BSIZE
    && v.inodes[0].nlink == 0 && (n > 0 ==> v.inodes[0].kind == T_FILE)
    && (forall s: nat :: s <= MAXFILE ==> v.table[0][s] == Spread(n, ind, s))
    && (forall j :: 0 < j < |v.inodes| ==> v.inodes[j].size == 0)
    && (forall j, s: nat :: 0 < j < |v.inodes| && s <= MAXFILE ==> v.table[j][s] == 0)
  }

  lemma {:induction false} SpreadsOut(n: nat) returns (v: View)
    requires n <= WIDTH
    ensures SpreadOut(v, n, n > NDIRECT)
  {
    WideIsALayout();
    if n == 0 {
      EmptyViewOk(WIDE);
      v := EmptyView(WIDE);
    } else {
      var u := SpreadsOut(n - 1);
      if n <= NDIRECT {
        v := SpreadDirect(u, n - 1, n);
      } else {
        if n == NDIRECT + 1 {
          u := SpreadIndirect(u);
        }
        v := SpreadEntry(u, n - 1, n);
      }
    }
  }

  /** A block that is not in the file is free. */
  lemma SpreadTakes(u: View, n: nat, ind: bool, b: nat) returns (disk: seq<Block>)
    requires SpreadOut(u, n, ind) && (b == 61 + n * BPB || (b == 62 && !ind)) && n < WIDTH
    ensures b !in u.owner && Taken(WIDE, u.disk, disk, b)
  {
    if b in u.owner {
      assert Owned(u.owner, b);
      var p := u.owner[b];
      assert u.table[p.inum][p.slot] == b;
    }
    disk := Mark(WIDE, u.disk, b, true)[b := ZeroBlock()];
    SameBits(WIDE, Mark(WIDE, u.disk, b, true), disk);
  }

  lemma SpreadDirect(u: View, n: nat, next: nat) returns (v: View)
    requires n < NDIRECT && next == n + 1 && SpreadOut(u, n, false)
    ensures SpreadOut(v, next, false)
  {
    var b := 61 + n * BPB;
    var disk := SpreadTakes(u, n, false, b);
    assert u.inodes[0].addrs[n] == Addr(u.inodes[0], u.disk, n) == u.table[0][n] == 0;
    LedgerTakesAddr(WIDE, u, 0, n, b, disk);
    v := SpreadGrown(Entered(u, disk, WithAddr(u.inodes, 0, n, b), 0, n, b), next);
  }

  lemma SpreadIndirect(u: View) returns (v: View)
    requires SpreadOut(u, NDIRECT, false)
    ensures SpreadOut(v, NDIRECT, true)
  {
    var disk := SpreadTakes(u, NDIRECT, false, 62);
    assert u.inodes[0].addrs[NDIRECT] == Addr(u.inodes[0], u.disk, MAXFILE) == u.table[0][MAXFILE] == 0;
    LedgerTakesAddr(WIDE, u, 0, NDIRECT, 62, disk);
    v := Entered(u, disk, WithAddr(u.inodes, 0, NDIRECT, 62), 0, MAXFILE, 62);
  }

  lemma SpreadEntry(u: View, n: nat, next: nat) returns (v: View)
    requires NDIRECT <= n < WIDTH && next == n + 1 && SpreadOut(u, n, true)
    ensures SpreadOut(v, next, true)
  {
    var b := 61 + n * BPB;
    var mid := SpreadTakes(u, n, true, b);
    assert u.inodes[0].addrs[NDIRECT] == Addr(u.inodes[0], u.disk, MAXFILE) == u.table[0][MAXFILE] == 62;
    var disk := mid[62 := PutWord(mid[62], n - NDIRECT, b)];
    LedgerTakesEntry(WIDE, u, 0, n, b, mid, disk);
    v := SpreadGrown(Entered(u, disk, u.inodes, 0, n, b), next);
  }

  lemma SpreadGrown(w: View, n: nat) returns (v: View)
    requires LayoutOk(WIDE) && Ledger(WIDE, w)
    ensures v == w.(inodes := v.inodes) && |v.inodes| == |w.inodes| && Ledger(WIDE, v)
    ensures v.inodes[0] == w.inodes[0].(kind := T_FILE, size := n * BSIZE)
    ensures forall j :: 0 < j < |v.inodes| ==> v.inodes[j] == w.inodes[j]
  {
    var d := w.inodes[0].(kind := T_FILE, size := n * BSIZE);
    LedgerKeepsFields(WIDE, w, 0, d);
    v := w.(inodes := w.inodes[0 := d]);
  }

  lemma {:induction false} SpreadMaps(m: BlockMap, n: nat)
    requires LayoutOk(WIDE) && n <= WIDTH && forall s: nat :: s < n ==> m[s] == 61 + s * BPB
    ensures |FreedMaps(WIDE, m, n)| == n && forall x :: x in FreedMaps(WIDE, m, n) ==> x < 33 + n
  {
    if n > 0 {
      SpreadMaps(m, n - 1);
      assert BitmapBlock(WIDE, m[n - 1]) == 33 + n - 1;
    }
  }

  lemma {:induction false} FreedMapsGrow(sb: Superblock, m: BlockMap, lo: nat, hi: nat)
    requires lo <= hi <= MAXFILE + 1
    ensures |FreedMaps(sb, m, lo)| <= |FreedMaps(sb, m, hi)|
  {
    if lo < hi {
      FreedMapsGrow(sb, m, lo, hi - 1);
      SubsetSize(FreedMaps(sb, m, hi - 1), FreedMaps(sb, m, hi));
    }
  }

  lemma SpreadCounts(n: nat, end: nat) returns (v: View)
    requires n <= WIDTH && end == MAXFILE + 1
    ensures LayoutOk(WIDE) && Ledger(WIDE, v) && DenseAll(v)
    ensures v.inodes[0].size == n * BSIZE && v.inodes[0].nlink == 0 && (n > 0 ==> v.inodes[0].kind == T_FILE)
    ensures |FreedMaps(WIDE, v.table[0], end)| >= n
  {
    v := SpreadsOut(n);
    SpreadMaps(v.table[0], n);
    FreedMapsGrow(WIDE, v.table[0], n, end);
    SpreadIsDense(v, n);
  }

  lemma SpreadIsDense(v: View, n: nat)
    requires SpreadOut(v, n, n > NDIRECT)
    ensures DenseAll(v)
  {
    assert BlocksFor(n * BSIZE) == n && BlocksFor(0) == 0;
  }

  /** A sound disk whose first file has so many blocks, and no links, so that the last iput frees it. */
  ghost predicate Unlinked(v: View, blocks: nat) {
    && LayoutOk(WIDE) && Ledger(WIDE, v) && DenseAll(v) && |v.inodes| == WIDE.ninodes
    && v.inodes[0].kind == T_FILE && v.inodes[0].nlink == 0 && v.inodes[0].size == blocks * BSIZE
  }

  /** There are files, of ten blocks even, that iput cannot free within what a transaction reserves. */
  lemma SomeInodeExceeds() returns (v: View)
    ensures Unlinked(v, 10) && Exceeds(WIDE, v.table[0])
  {
    v := SpreadCounts(10, MAXFILE + 1);
  }

  /** And there are files of 28 blocks for which log_write halts. */
  lemma SomeInodeOverruns() returns (v: View)
    ensures Unlinked(v, WIDTH) && Overruns(WIDE, v.table[0])
  {
    v := SpreadCounts(WIDTH, MAXFILE + 1);
  }
}
