/** Who owns which block: the addresses in inodes and indirect blocks against the bitmap. */
module FsLedger {
  import opened Basics
  import opened Bytes
  import opened FsLayout

  /**
   * The block that holds data block k of an inode; slot MAXFILE is the indirect block itself.
   * Zero means that there is none.
   */
  function Addr(d: Dinode, disk: seq<Block>, k: nat): nat {
    if k < NDIRECT then d.addrs[k]
    else if k == MAXFILE then d.addrs[NDIRECT]
    else if k < MAXFILE && 0 < d.addrs[NDIRECT] < |disk| then GetWord(disk[d.addrs[NDIRECT]], k - NDIRECT)
    else 0
  }

  /** The place that names a block. */
  datatype Place = Place(inum: nat, slot: nat)

  type Owners = map<nat, Place>

  /** An inode's block map: slot k is Addr of data block k, slot MAXFILE the indirect block. */
  type BlockMap = m: seq<nat> | |m| == MAXFILE + 1 witness seq(MAXFILE + 1, i => 0)

  /** The disk and the inodes, with the block maps they spell out and the place that names each block. */
  datatype View = View(disk: seq<Block>, inodes: seq<Dinode>, table: seq<BlockMap>, owner: Owners)

  /** The bytes on disk say what the abstract table and owners say. */
  ghost predicate Represents(sb: Superblock, v: View) {
    && DiskOk(sb, v.disk)
    && |v.inodes| == |v.table| == sb.ninodes
    && (forall i: nat, k: nat {:trigger Addr(v.inodes[i], v.disk, k)} :: i < |v.inodes| && k <= MAXFILE ==>
          v.table[i][k] == Addr(v.inodes[i], v.disk, k))
    && (forall b: nat {:trigger InUse(sb, v.disk, b)} :: b < sb.size ==>
          (InUse(sb, v.disk, b) <==> b < sb.datastart || b in v.owner))
  }

  ghost predicate Owned(owner: Owners, b: nat) {
    b in owner
  }

  /** Every block named by an inode lies in the data region and has exactly one place that names it. */
  ghost predicate OneOwner(sb: Superblock, table: seq<BlockMap>, owner: Owners) {
    && (forall i: nat, k: nat {:trigger table[i][k]} :: i < |table| && k <= MAXFILE && table[i][k] != 0 ==>
          sb.datastart <= table[i][k] < sb.size && table[i][k] in owner && owner[table[i][k]] == Place(i, k))
    && (forall b: nat {:trigger Owned(owner, b)} :: Owned(owner, b) ==>
          && sb.datastart <= b < sb.size
          && owner[b].inum < |table| && owner[b].slot <= MAXFILE && table[owner[b].inum][owner[b].slot] == b)
  }

  /** What holds at every moment of every operation. */
  ghost predicate Ledger(sb: Superblock, v: View) {
    Represents(sb, v) && OneOwner(sb, v.table, v.owner)
  }

  ghost predicate IsData(owner: Owners, b: nat) {
    b in owner && owner[b].slot < MAXFILE
  }

  /** All blocks that held file data before still hold the same data. */
  ghost predicate DataKept(owner: Owners, disk: seq<Block>, disk': seq<Block>) {
    |disk'| == |disk| && forall b: nat :: IsData(owner, b) && b < |disk| ==> disk'[b] == disk[b]
  }

  lemma DataKeptByMetadata(sb: Superblock, table: seq<BlockMap>, owner: Owners, disk: seq<Block>, disk': seq<Block>,
                           b: nat)
    requires OneOwner(sb, table, owner) && |disk'| == |disk| && !IsData(owner, b)
    requires forall c: nat :: sb.datastart <= c < |disk| && c != b ==> disk'[c] == disk[c]
    ensures DataKept(owner, disk, disk')
  {
    forall c: nat | IsData(owner, c) && c < |disk|
      ensures disk'[c] == disk[c]
    {
      assert Owned(owner, c);
    }
  }

  /** The slot, if it is still empty. */
  ghost function Gap(m: BlockMap, k: nat): set<nat>
    requires k <= MAXFILE
  {
    if m[k] == 0 then {k} else {}
  }

  /** The slots that bmap has to fill before data block bn has a block. */
  ghost function Missing(m: BlockMap, bn: nat): set<nat>
    requires bn < MAXFILE
  {
    Gap(m, bn) + if bn < NDIRECT then {} else Gap(m, MAXFILE)
  }

  lemma MissingIsGaps(m: BlockMap, bn: nat)
    requires NDIRECT <= bn < MAXFILE
    ensures |Missing(m, bn)| == |Gap(m, MAXFILE)| + |Gap(m, bn)|
    ensures Missing(m, bn) == {} <==> m[MAXFILE] != 0 && m[bn] != 0
  {
  }

  /** Exactly the given empty slots of a block map have been filled. */
  ghost predicate Filled(m: BlockMap, m': BlockMap, slots: set<nat>) {
    && (forall k :: 0 <= k <= MAXFILE && k !in slots ==> m'[k] == m[k])
    && (forall k :: k in slots ==> k <= MAXFILE && m[k] == 0 && m'[k] != 0)
  }

  /** Only inode i, and of it only the block addresses, may differ. */
  ghost predicate OnlyAddrs(v: View, v': View, i: nat) {
    && |v'.table| == |v.table| == |v'.inodes| == |v.inodes| && i < |v.table|
    && (forall j :: 0 <= j < |v.table| && j != i ==> v'.table[j] == v.table[j] && v'.inodes[j] == v.inodes[j])
    && v'.inodes[i] == v.inodes[i].(addrs := v'.inodes[i].addrs)
  }

  /**
   * Inode i gains blocks nobody owned in the given empty slots; no file
   * data and nothing else about any inode changes.
   */
  ghost predicate Extended(v: View, v': View, i: nat, slots: set<nat>) {
    && OnlyAddrs(v, v', i)
    && Filled(v.table[i], v'.table[i], slots)
    && (forall k :: k in slots ==> v'.table[i][k] !in v.owner)
    && (forall b :: b in v.owner ==> b in v'.owner && v'.owner[b] == v.owner[b])
    && DataKept(v.owner, v.disk, v'.disk)
  }

  /** The two steps of bmap through the indirect block make up one extension. */
  lemma ExtendedTwice(v: View, v': View, v'': View, i: nat, bn: nat)
    requires NDIRECT <= bn < MAXFILE && i < |v.table| == |v'.table|
    requires Extended(v, v', i, Gap(v.table[i], MAXFILE)) && Extended(v', v'', i, Gap(v'.table[i], bn))
    ensures Extended(v, v'', i, Missing(v.table[i], bn))
    ensures v'.table[i][bn] == v.table[i][bn] && v''.table[i][MAXFILE] == v'.table[i][MAXFILE]
    ensures |Missing(v.table[i], bn)| == |Gap(v.table[i], MAXFILE)| + |Gap(v.table[i], bn)|
  {
  }

  /** The slot of ip->addrs[idx]: a data block, or the indirect block. */
  function SlotOf(idx: nat): nat {
    if idx == NDIRECT then MAXFILE else idx
  }

  /** The inodes with one address of one inode set. */
  function WithAddr(inodes: seq<Dinode>, i: nat, idx: nat, b: nat): seq<Dinode>
    requires i < |inodes| && idx <= NDIRECT
  {
    inodes[i := inodes[i].(addrs := inodes[i].addrs[idx := b])]
  }

  /** Block b enters slot k of inode i; disk and inodes have been written to say so. */
  ghost function Entered(v: View, disk: seq<Block>, inodes: seq<Dinode>, i: nat, k: nat, b: nat): View
    requires i < |v.table| && k <= MAXFILE
  {
    View(disk, inodes, v.table[i := v.table[i][k := b]], v.owner[b := Place(i, k)])
  }

  lemma OneOwnerGrows(sb: Superblock, table: seq<BlockMap>, owner: Owners, i: nat, k: nat, b: nat)
    requires OneOwner(sb, table, owner)
    requires i < |table| && k <= MAXFILE && table[i][k] == 0
    requires sb.datastart <= b < sb.size && b !in owner
    ensures OneOwner(sb, table[i := table[i][k := b]], owner[b := Place(i, k)])
  {
    var table', owner' := table[i := table[i][k := b]], owner[b := Place(i, k)];
    forall c: nat | Owned(owner', c)
      ensures sb.datastart <= c < sb.size
      ensures owner'[c].inum < |table'| && owner'[c].slot <= MAXFILE && table'[owner'[c].inum][owner'[c].slot] == c
    {
      assert c != b ==> Owned(owner, c);
    }
  }

  lemma EnteredExtends(v: View, disk: seq<Block>, inodes: seq<Dinode>, i: nat, k: nat, b: nat)
    requires i < |v.table| && k <= MAXFILE && v.table[i][k] == 0 && 0 < b && b !in v.owner
    requires OnlyAddrs(v, Entered(v, disk, inodes, i, k, b), i) && DataKept(v.owner, v.disk, disk)
    ensures Extended(v, Entered(v, disk, inodes, i, k, b), i, {k})
  {
  }

  /** Entering a fresh block as an inode's address keeps the ledger and all file data. */
  lemma LedgerTakesAddr(sb: Superblock, v: View, i: nat, idx: nat, b: nat, disk': seq<Block>)
    requires Ledger(sb, v) && Taken(sb, v.disk, disk', b)
    requires i < |v.inodes| && idx <= NDIRECT && v.inodes[i].addrs[idx] == 0
    ensures Ledger(sb, Entered(v, disk', WithAddr(v.inodes, i, idx, b), i, SlotOf(idx), b))
    ensures Extended(v, Entered(v, disk', WithAddr(v.inodes, i, idx, b), i, SlotOf(idx), b), i, {SlotOf(idx)})
  {
    var inodes' := WithAddr(v.inodes, i, idx, b);
    var v' := Entered(v, disk', inodes', i, SlotOf(idx), b);
    assert Addr(v.inodes[i], v.disk, SlotOf(idx)) == 0;
    OneOwnerGrows(sb, v.table, v.owner, i, SlotOf(idx), b);
    DataKeptByMetadata(sb, v.table, v.owner, v.disk, disk', b);
    forall j: nat, k: nat | j < |v.inodes| && k <= MAXFILE
      ensures v'.table[j][k] == Addr(inodes'[j], disk', k)
    {
      assert Addr(v.inodes[j], v.disk, MAXFILE) == v.inodes[j].addrs[NDIRECT];
      assert v.table[j][k] == Addr(v.inodes[j], v.disk, k);
    }
    EnteredExtends(v, disk', inodes', i, SlotOf(idx), b);
  }

  /** Entering a fresh block into the indirect block of inode i keeps the ledger and all file data. */
  lemma LedgerTakesEntry(sb: Superblock, v: View, i: nat, bn: nat, b: nat, mid: seq<Block>, disk': seq<Block>)
    requires Ledger(sb, v) && NDIRECT <= bn < MAXFILE
    requires i < |v.inodes| && v.inodes[i].addrs[NDIRECT] != 0 && v.table[i][bn] == 0
    requires Taken(sb, v.disk, mid, b) && EntryWritten(mid, disk', v.inodes[i].addrs[NDIRECT], bn - NDIRECT, b)
    ensures Ledger(sb, Entered(v, disk', v.inodes, i, bn, b)) && disk'[b] == ZeroBlock()
    ensures Extended(v, Entered(v, disk', v.inodes, i, bn, b), i, {bn})
  {
    var ind := v.inodes[i].addrs[NDIRECT];
    assert Addr(v.inodes[i], v.disk, MAXFILE) == ind;
    assert v.owner[ind] == Place(i, MAXFILE);
    OneOwnerGrows(sb, v.table, v.owner, i, bn, b);
    DataKeptByMetadata(sb, v.table, v.owner, v.disk, mid, b);
    var v' := Entered(v, disk', v.inodes, i, bn, b);
    forall j: nat, k: nat | j < |v.inodes| && k <= MAXFILE
      ensures v'.table[j][k] == Addr(v.inodes[j], disk', k)
    {
      assert Addr(v.inodes[j], v.disk, MAXFILE) == v.inodes[j].addrs[NDIRECT];
      assert v.table[j][k] == Addr(v.inodes[j], v.disk, k);
    }
    SameBits(sb, mid, disk');
    EnteredExtends(v, disk', v.inodes, i, bn, b);
  }

  /** Overwriting a data block moves no address and no bitmap bit. */
  lemma LedgerKeepsData(sb: Superblock, v: View, b: nat, disk': seq<Block>)
    requires Ledger(sb, v) && IsData(v.owner, b)
    requires |disk'| == |v.disk| && forall c: nat :: c < |v.disk| && c != b ==> disk'[c] == v.disk[c]
    ensures Ledger(sb, v.(disk := disk'))
  {
    forall j: nat, k: nat | j < |v.inodes| && k <= MAXFILE
      ensures v.table[j][k] == Addr(v.inodes[j], disk', k)
    {
      assert v.table[j][k] == Addr(v.inodes[j], v.disk, k);
      assert v.table[j][MAXFILE] == Addr(v.inodes[j], v.disk, MAXFILE);
      assert v.table[j][MAXFILE] != 0 ==> v.owner[v.table[j][MAXFILE]] == Place(j, MAXFILE);
    }
    assert Owned(v.owner, b);
    SameBits(sb, v.disk, disk');
  }

  /** Nothing but the addresses of an inode matters to the ledger. */
  lemma LedgerKeepsFields(sb: Superblock, v: View, i: nat, d: Dinode)
    requires Ledger(sb, v) && i < |v.inodes| && d.addrs == v.inodes[i].addrs
    ensures Ledger(sb, v.(inodes := v.inodes[i := d]))
  {
    forall j: nat, k: nat | j < |v.inodes| && k <= MAXFILE
      ensures v.table[j][k] == Addr(v.inodes[i := d][j], v.disk, k)
    {
      assert v.table[j][k] == Addr(v.inodes[j], v.disk, k);
    }
  }

  /** The addresses in an inode follow from its block map. */
  lemma SameMapSameAddrs(sb: Superblock, v: View, v': View, i: nat)
    requires Ledger(sb, v) && Ledger(sb, v')
    requires i < |v.table| && v'.table[i] == v.table[i]
    ensures v'.inodes[i].addrs == v.inodes[i].addrs
  {
    forall idx | 0 <= idx <= NDIRECT
      ensures v'.inodes[i].addrs[idx] == v.inodes[i].addrs[idx]
    {
      assert v.table[i][SlotOf(idx)] == Addr(v.inodes[i], v.disk, SlotOf(idx));
      assert v'.table[i][SlotOf(idx)] == Addr(v'.inodes[i], v'.disk, SlotOf(idx));
    }
  }

  // ----- Free blocks

  ghost function Unused(sb: Superblock, disk: seq<Block>): set<nat>
    requires DiskOk(sb, disk)
  {
    set b: nat | b < sb.size && !InUse(sb, disk, b)
  }

  /** How many blocks are left by the account of who owns which. */
  ghost function Spare(sb: Superblock, v: View): int {
    sb.size - sb.datastart - |v.owner|
  }

  /** That is how many the bitmap says are free. */
  lemma SpareIsUnused(sb: Superblock, v: View)
    requires Ledger(sb, v)
    ensures |Unused(sb, v.disk)| == Spare(sb, v) >= 0
    ensures UsedBelow(sb, v.disk, sb.size) <==> Spare(sb, v) == 0
  {
    var count := sb.size - sb.datastart;
    forall b: nat
      ensures b in Unused(sb, v.disk) <==> sb.datastart <= b < sb.datastart + count && b !in v.owner.Keys
    {
      assert b < sb.size ==> (InUse(sb, v.disk, b) <==> b < sb.datastart || b in v.owner);
    }
    forall b | b in v.owner.Keys
      ensures sb.datastart <= b < sb.datastart + count
    {
      assert Owned(v.owner, b);
    }
    Complement(Unused(sb, v.disk), v.owner.Keys, sb.datastart, count);
    NoneUnused(sb, v.disk);
  }

  lemma NoneUnused(sb: Superblock, disk: seq<Block>)
    requires DiskOk(sb, disk)
    ensures UsedBelow(sb, disk, sb.size) <==> |Unused(sb, disk)| == 0
  {
    if UsedBelow(sb, disk, sb.size) {
      assert Unused(sb, disk) == {};
    } else {
      var b: nat :| b < sb.size && !InUse(sb, disk, b);
      assert b in Unused(sb, disk);
    }
  }
}
