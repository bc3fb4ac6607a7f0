/** Files as plain byte sequences: what the block maps and the data blocks mean. */
module FsContent {
  import opened Basics
  import opened Bytes
  import opened FsLayout
  import opened FsLedger

  /** Byte k of the file with inode d, read off the disk through its addresses. */
  function DataByte(d: Dinode, disk: seq<Block>, k: nat): byte {
    BlockByte(Addr(d, disk, k / BSIZE), disk, k)
  }

  /** Byte k of a file whose block k / BSIZE is b; a missing block reads as zeros. */
  function BlockByte(b: nat, disk: seq<Block>, k: nat): byte {
    if 0 < b < |disk| then disk[b][k % BSIZE] else 0
  }

  /** A file as a plain byte sequence. */
  function Content(d: Dinode, disk: seq<Block>): (s: seq<byte>)
    ensures |s| == d.size
    ensures forall k :: 0 <= k < |s| ==> s[k] == DataByte(d, disk, k)
  {
    seq(d.size, (k: nat) => DataByte(d, disk, k))
  }

  /** All files, by inode number. */
  function AllFiles(inodes: seq<Dinode>, disk: seq<Block>): (fs: seq<seq<byte>>)
    ensures |fs| == |inodes|
    ensures forall i :: 0 <= i < |fs| ==> fs[i] == Content(inodes[i], disk)
  {
    seq(|inodes|, i requires 0 <= i < |inodes| => Content(inodes[i], disk))
  }

  lemma OneFileChanged(inodes: seq<Dinode>, disk: seq<Block>, inodes': seq<Dinode>, disk': seq<Block>, i: nat,
                       content: seq<byte>)
    requires i < |inodes| == |inodes'|
    requires forall j :: 0 <= j < |inodes| ==>
      Content(inodes'[j], disk') == if j == i then content else Content(inodes[j], disk)
    ensures AllFiles(inodes', disk') == AllFiles(inodes, disk)[i := content]
  {
  }

  /** src overwrites content from off on, extending it when src reaches past the end. */
  function Splice(content: seq<byte>, off: nat, src: seq<byte>): seq<byte>
    requires off <= |content|
  {
    content[..off] + src + if off + |src| < |content| then content[off + |src|..] else []
  }

  /** Byte k of a file by its block map. */
  ghost function MapByte(m: BlockMap, disk: seq<Block>, k: nat): byte {
    if k < MAXFILE * BSIZE then BlockByte(m[k / BSIZE], disk, k) else 0
  }

  lemma MapByteIsDataByte(sb: Superblock, v: View, i: nat, k: nat)
    requires Ledger(sb, v) && i < |v.inodes| && k < MAXFILE * BSIZE
    ensures MapByte(v.table[i], v.disk, k) == DataByte(v.inodes[i], v.disk, k)
  {
    assert v.table[i][k / BSIZE] == Addr(v.inodes[i], v.disk, k / BSIZE);
  }

  // ---------- dense files ----------

  function BlocksFor(bytes: nat): nat {
    (bytes + BSIZE - 1) / BSIZE
  }

  /** Exactly the first nb data blocks are present, and the indirect block exists just when it is needed. */
  ghost predicate Dense(m: BlockMap, nb: nat) {
    && (forall k: nat :: k < MAXFILE ==> (m[k] != 0 <==> k < nb))
    && (m[MAXFILE] != 0 <==> nb > NDIRECT)
  }

  /** Block bn of a file exists if and only if bn < ceil(size / BSIZE). */
  ghost predicate DenseAll(v: View) {
    |v.table| == |v.inodes| && forall i :: 0 <= i < |v.inodes| ==>
      v.inodes[i].size <= MAXFILE * BSIZE && Dense(v.table[i], BlocksFor(v.inodes[i].size))
  }

  lemma DenseHasBlock(m: BlockMap, nb: nat, bn: nat)
    requires Dense(m, nb) && bn < nb && bn < MAXFILE
    ensures Missing(m, bn) == {}
  {
  }

  /** Filling the next slots of a dense map keeps it dense. */
  lemma DenseExtends(m: BlockMap, m': BlockMap, nb: nat, bn: nat)
    requires Dense(m, nb) && bn <= nb && bn < MAXFILE && Filled(m, m', Missing(m, bn))
    ensures Dense(m', Max(nb, bn + 1))
    ensures |Missing(m, bn)| == (if bn == nb then 1 else 0) + (if bn >= NDIRECT && m[MAXFILE] == 0 then 1 else 0)
  {
    assert bn == nb ==> m[bn] == 0;
  }

  // ---------- writing ----------

  /** The bytes [off, cur) of file i come from src; no other byte of any file has changed. */
  ghost predicate Overlaid(v: View, v': View, i: nat, off: nat, cur: nat, src: seq<byte>) {
    && |v'.table| == |v.table| && off <= cur <= off + |src|
    && forall j: nat, k: nat {:trigger MapByte(v'.table[j], v'.disk, k)} :: j < |v.table| ==>
         MapByte(v'.table[j], v'.disk, k) == if j == i && off <= k < cur then src[k - off]
           else MapByte(v.table[j], v.disk, k)
  }

  lemma OverlaidTwice(v: View, v': View, v'': View, i: nat, off: nat, cur: nat, next: nat, piece: seq<byte>,
                      src: seq<byte>)
    requires off <= cur <= next <= off + |src| && piece == src[cur - off..next - off]
    requires Overlaid(v, v', i, off, cur, src) && Overlaid(v', v'', i, cur, next, piece)
    ensures Overlaid(v, v'', i, off, next, src)
  {
    forall j: nat, k: nat | j < |v.table|
      ensures MapByte(v''.table[j], v''.disk, k) ==
              if j == i && off <= k < next then src[k - off] else MapByte(v.table[j], v.disk, k)
    {
      assert MapByte(v'.table[j], v'.disk, k) == if j == i && off <= k < cur then src[k - off]
        else MapByte(v.table[j], v.disk, k);
    }
  }

  /** Allocation alone changes no byte of any file: the missing block reads as zeros and is born zeroed. */
  lemma ExtensionKeepsBytes(sb: Superblock, v: View, v': View, i: nat, bn: nat, j: nat, k: nat)
    requires Ledger(sb, v) && i < |v.table| && j < |v.table| && bn < MAXFILE
    requires Extended(v, v', i, Missing(v.table[i], bn))
    requires v.table[i][bn] == 0 && 0 < v'.table[i][bn] < |v'.disk| ==> v'.disk[v'.table[i][bn]] == ZeroBlock()
    ensures MapByte(v'.table[j], v'.disk, k) == MapByte(v.table[j], v.disk, k)
  {
    if k < MAXFILE * BSIZE {
      var s := k / BSIZE;
      assert v.table[j][s] != 0 ==> IsData(v.owner, v.table[j][s]);
      assert j != i || s != bn ==> v'.table[j][s] == v.table[j][s];
    }
  }

  /** Only the piece at offset at of block b has changed. */
  ghost predicate Patched(disk: seq<Block>, disk': seq<Block>, b: nat, at: nat, piece: seq<byte>) {
    && |disk'| == |disk| && b < |disk| && at + |piece| <= BSIZE
    && (forall c: nat :: c < |disk| && c != b ==> disk'[c] == disk[c])
    && (forall x: nat :: x < BSIZE ==> disk'[b][x] == if at <= x < at + |piece| then piece[x - at] else disk[b][x])
  }

  /** Overwriting part of one data block changes just those bytes of the one file that owns it. */
  lemma PatchChangesBytes(sb: Superblock, v: View, i: nat, off: nat, piece: seq<byte>, disk': seq<Block>, j: nat,
                          k: nat)
    requires Ledger(sb, v) && i < |v.table| && j < |v.table|
    requires off / BSIZE < MAXFILE && off % BSIZE + |piece| <= BSIZE && v.table[i][off / BSIZE] != 0
    requires Patched(v.disk, disk', v.table[i][off / BSIZE], off % BSIZE, piece)
    ensures MapByte(v.table[j], disk', k) ==
            if j == i && off <= k < off + |piece| then piece[k - off] else MapByte(v.table[j], v.disk, k)
  {
    var b := v.table[i][off / BSIZE];
    assert v.owner[b] == Place(i, off / BSIZE);
    if k < MAXFILE * BSIZE {
      assert v.table[j][k / BSIZE] == b ==> j == i && k / BSIZE == off / BSIZE;
    }
  }

  /** One round of writei: bmap, then memmove into the block. */
  lemma BlockOverlaid(sb: Superblock, v: View, mid: View, i: nat, off: nat, next: nat, piece: seq<byte>,
                      disk': seq<Block>)
    requires Ledger(sb, v) && Ledger(sb, mid) && i < |v.table| && off / BSIZE < MAXFILE
      && off % BSIZE + |piece| <= BSIZE
    requires next == off + |piece| && Extended(v, mid, i, Missing(v.table[i], off / BSIZE))
    requires mid.table[i][off / BSIZE] != 0
    requires v.table[i][off / BSIZE] == 0 ==> mid.disk[mid.table[i][off / BSIZE]] == ZeroBlock()
    requires Patched(mid.disk, disk', mid.table[i][off / BSIZE], off % BSIZE, piece)
    ensures Ledger(sb, mid.(disk := disk'))
    ensures Overlaid(v, mid.(disk := disk'), i, off, next, piece)
  {
    var bn := off / BSIZE;
    var v' := mid.(disk := disk');
    assert mid.owner[mid.table[i][bn]] == Place(i, bn);
    LedgerKeepsData(sb, mid, mid.table[i][bn], disk');
    forall j: nat, k: nat | j < |v.table|
      ensures MapByte(v'.table[j], v'.disk, k) ==
              if j == i && off <= k < next then piece[k - off] else MapByte(v.table[j], v.disk, k)
    {
      ExtensionKeepsBytes(sb, v, mid, i, bn, j, k);
      PatchChangesBytes(sb, mid, i, off, piece, disk', j, k);
    }
  }

  /** How many blocks a dense file of nb blocks has once byte cur - 1 is written. */
  function BlocksAt(nb: nat, off: nat, cur: nat): nat {
    if cur == off then nb else Max(nb, (cur - 1) / BSIZE + 1)
  }

  /** How many blocks a dense file of nb data blocks takes, with the indirect block. */
  function Footprint(nb: nat): nat {
    nb + if nb > NDIRECT then 1 else 0
  }

  /** How many blocks a file has to gain before n bytes can be written at off. */
  function NewBlocks(size: nat, off: nat, n: nat): nat {
    Footprint(BlocksFor(Max(size, off + n))) - Footprint(BlocksFor(size))
  }

  lemma NewBlocksSplit(size: nat, off: nat, i: nat, m: nat, next: nat)
    requires next == i + m
    ensures NewBlocks(size, off, i) + NewBlocks(Max(size, off + i), off + i, m) == NewBlocks(size, off, next)
  {
    assert Max(Max(size, off + i), off + i + m) == Max(size, off + next);
  }

  /** How many blocks are left when a write that began in v has reached cur. */
  ghost function SpareAt(sb: Superblock, v: View, i: nat, off: nat, cur: nat): int
    requires i < |v.inodes|
  {
    var nb := BlocksFor(v.inodes[i].size);
    Spare(sb, v) + Footprint(nb) - Footprint(BlocksAt(nb, off, cur))
  }

  lemma SpareAtEnd(sb: Superblock, v: View, i: nat, off: nat, n: nat)
    requires i < |v.inodes| && off <= v.inodes[i].size
    ensures SpareAt(sb, v, i, off, off) == Spare(sb, v)
    ensures SpareAt(sb, v, i, off, off + n) == Spare(sb, v) - NewBlocks(v.inodes[i].size, off, n)
  {
  }

  /** One round takes the blocks that are missing, and the rounds after it take no fewer. */
  lemma SpareSpent(sb: Superblock, v: View, m: BlockMap, i: nat, off: nat, n: nat, cur: nat, next: nat)
    requires i < |v.inodes| && off <= v.inodes[i].size && off <= cur < next <= off + n
    requires cur % BSIZE + next - cur <= BSIZE && (cur == off || cur % BSIZE == 0) && cur / BSIZE < MAXFILE
    requires Dense(m, BlocksAt(BlocksFor(v.inodes[i].size), off, cur))
    ensures SpareAt(sb, v, i, off, next) == SpareAt(sb, v, i, off, cur) - |Missing(m, cur / BSIZE)|
    ensures SpareAt(sb, v, i, off, off + n) <= SpareAt(sb, v, i, off, next)
  {
    var nb := BlocksFor(v.inodes[i].size);
    StepBlocks(v.inodes[i].size, off, cur, next);
    MissingCounts(m, BlocksAt(nb, off, cur), cur / BSIZE);
    BlocksGrow(nb, off, next, off + n);
  }

  lemma BlocksGrow(nb: nat, off: nat, cur: nat, end: nat)
    requires off <= cur <= end
    ensures BlocksAt(nb, off, cur) <= BlocksAt(nb, off, end)
    ensures Footprint(BlocksAt(nb, off, cur)) <= Footprint(BlocksAt(nb, off, end))
  {
  }

  lemma MissingCounts(m: BlockMap, nb: nat, bn: nat)
    requires Dense(m, nb) && bn <= nb && bn < MAXFILE
    ensures |Missing(m, bn)| == Footprint(Max(nb, bn + 1)) - Footprint(nb)
  {
    assert bn == nb ==> m[bn] == 0;
  }

  /** How many blocks the bytes [off, cur) touch. */
  function Touched(off: nat, cur: nat): nat {
    if cur <= off then 0 else (cur - 1) / BSIZE - off / BSIZE + 1
  }

  /** Moving on by one chunk that stays in the block of cur. */
  lemma StepBlocks(size: nat, off: nat, cur: nat, next: nat)
    requires off <= size && off <= cur < next && cur % BSIZE + next - cur <= BSIZE && (cur == off || cur % BSIZE == 0)
    ensures var nb := BlocksFor(size);
            && cur / BSIZE <= BlocksAt(nb, off, cur)
            && BlocksAt(nb, off, next) == Max(BlocksAt(nb, off, cur), cur / BSIZE + 1)
    ensures Touched(off, next) == Touched(off, cur) + 1
  {
  }

  /** How much a read or write moves next: to the end of the block, or all that is left. */
  method Chunk(cur: nat, rest: nat) returns (m: nat, next: nat)
    ensures next == cur + m && m <= rest && cur % BSIZE + m <= BSIZE && (rest > 0 ==> m > 0)
    ensures next == cur + rest || next % BSIZE == 0
  {
    m := BSIZE - cur % BSIZE;
    if rest < m {
      m := rest;
    }
    next := cur + m;
    ChunkEndsBlock(cur);
  }

  lemma ChunkEndsBlock(cur: nat)
    ensures (cur + (BSIZE - cur % BSIZE)) % BSIZE == 0
  {
    assert cur + (BSIZE - cur % BSIZE) == BSIZE * (cur / BSIZE + 1);
  }

  /** What the loop of writei keeps about files. */
  ghost predicate Writing(v: View, v': View, i: nat, off: nat, cur: nat, src: seq<byte>) {
    && OnlyAddrs(v, v', i)
    && Overlaid(v, v', i, off, cur, src)
    && Dense(v'.table[i], BlocksAt(BlocksFor(v.inodes[i].size), off, cur))
    && (BlocksAt(BlocksFor(v.inodes[i].size), off, cur) == BlocksFor(v.inodes[i].size) ==> v'.table[i] == v.table[i])
  }

  lemma WritingStep(v: View, v': View, v'': View, i: nat, off: nat, cur: nat, next: nat, piece: seq<byte>,
                    src: seq<byte>)
    requires Writing(v, v', i, off, cur, src)
    requires off <= v.inodes[i].size && off <= cur < next <= off + |src| && piece == src[cur - off..next - off]
    requires (cur == off || cur % BSIZE == 0) && cur % BSIZE + |piece| <= BSIZE && cur / BSIZE < MAXFILE
    requires OnlyAddrs(v', v'', i) && Filled(v'.table[i], v''.table[i], Missing(v'.table[i], cur / BSIZE))
    requires Overlaid(v', v'', i, cur, next, piece)
    ensures Writing(v, v'', i, off, next, src)
  {
    var nb := BlocksFor(v.inodes[i].size);
    StepBlocks(v.inodes[i].size, off, cur, next);
    DenseExtends(v'.table[i], v''.table[i], BlocksAt(nb, off, cur), cur / BSIZE);
    OverlaidTwice(v, v', v'', i, off, cur, next, piece, src);
    if BlocksAt(nb, off, next) == nb {
      DenseHasBlock(v'.table[i], BlocksAt(nb, off, cur), cur / BSIZE);
      assert v''.table[i] == v'.table[i];
    }
  }

  /** What writei does to the inode once its loop is done. */
  function Resized(d: Dinode, size: nat): Dinode {
    if size > d.size then d.(size := size) else d
  }

  /** The write leaves every file dense, and changes the inode only if the file grew. */
  lemma WriteCommits(sb: Superblock, v: View, v': View, i: nat, off: nat, n: nat, src: seq<byte>)
    requires Ledger(sb, v) && Ledger(sb, v') && DenseAll(v)
    requires i < |v.inodes| && off <= v.inodes[i].size && off + n <= MAXFILE * BSIZE
    requires Writing(v, v', i, off, off + n, src)
    ensures var w := v'.(inodes := v'.inodes[i := Resized(v'.inodes[i], off + n)]);
            && Ledger(sb, w) && DenseAll(w)
            && w.inodes[i].size == Max(v.inodes[i].size, off + n)
            && (off + n <= v.inodes[i].size ==> w.inodes == v.inodes)
  {
    LedgerKeepsFields(sb, v', i, Resized(v'.inodes[i], off + n));
    if off + n > v.inodes[i].size {
      assert BlocksAt(BlocksFor(v.inodes[i].size), off, off + n) == BlocksFor(off + n);
    } else {
      assert BlocksAt(BlocksFor(v.inodes[i].size), off, off + n) == BlocksFor(v.inodes[i].size);
      SameMapSameAddrs(sb, v, v', i);
      assert v'.inodes[i] == v.inodes[i];
    }
  }

  /** A finished write: the file is spliced, every other file reads as before. */
  lemma ContentWritten(sb: Superblock, v: View, v': View, i: nat, off: nat, n: nat, src: seq<byte>, j: nat)
    requires Ledger(sb, v) && Ledger(sb, v') && DenseAll(v)
    requires i < |v.inodes| && j < |v.inodes| && n <= |src| && off <= v.inodes[i].size && off + n <= MAXFILE * BSIZE
    requires Overlaid(v, v', i, off, off + n, src)
    requires v'.inodes[i].size == Max(v.inodes[i].size, off + n) && (j != i ==> v'.inodes[j].size == v.inodes[j].size)
    ensures Content(v'.inodes[j], v'.disk) ==
            if j == i then Splice(Content(v.inodes[i], v.disk), off, src[..n]) else Content(v.inodes[j], v.disk)
  {
    forall k: nat | k < v'.inodes[j].size
      ensures DataByte(v'.inodes[j], v'.disk, k) ==
              if j == i && off <= k < off + n then src[k - off] else DataByte(v.inodes[j], v.disk, k)
    {
      MapByteIsDataByte(sb, v', j, k);
      MapByteIsDataByte(sb, v, j, k);
    }
    if j == i {
      SpliceAt(Content(v.inodes[i], v.disk), off, src[..n], Content(v'.inodes[i], v'.disk));
    }
  }

  lemma FilesWritten(sb: Superblock, v: View, v': View, i: nat, off: nat, n: nat, src: seq<byte>)
    requires Ledger(sb, v) && Ledger(sb, v') && DenseAll(v)
    requires i < |v.inodes| && n <= |src| && off <= v.inodes[i].size && off + n <= MAXFILE * BSIZE
    requires Overlaid(v, v', i, off, off + n, src) && OnlyAddrs(v, v', i)
    ensures var w := v'.(inodes := v'.inodes[i := Resized(v'.inodes[i], off + n)]);
            AllFiles(w.inodes, w.disk) == AllFiles(v.inodes,
              v.disk)[i := Splice(Content(v.inodes[i], v.disk), off, src[..n])]
  {
    var w := v'.(inodes := v'.inodes[i := Resized(v'.inodes[i], off + n)]);
    LedgerKeepsFields(sb, v', i, Resized(v'.inodes[i], off + n));
    forall j | 0 <= j < |v.inodes|
      ensures Content(w.inodes[j], w.disk) ==
              if j == i then Splice(Content(v.inodes[i], v.disk), off, src[..n]) else Content(v.inodes[j], v.disk)
    {
      ContentWritten(sb, v, w, i, off, n, src, j);
    }
    OneFileChanged(v.inodes, v.disk, w.inodes, w.disk, i, Splice(Content(v.inodes[i], v.disk), off, src[..n]));
  }

  lemma SpliceAt(content: seq<byte>, off: nat, src: seq<byte>, out: seq<byte>)
    requires off <= |content| && |out| == Max(|content|, off + |src|)
    requires forall k :: 0 <= k < |out| ==> out[k] == if off <= k < off + |src| then src[k - off] else content[k]
    ensures out == Splice(content, off, src)
  {
  }

  // ---------- the log during a write ----------

  /** Blocks logged by a write: data blocks, bitmap blocks, and the indirect block. */
  datatype LogUse = LogUse(data: set<nat>, maps: set<nat>, ind: set<nat>)

  /** One data block per block touched, one bitmap block per block added, at most one indirect block. */
  ghost predicate LogWithin(logged: set<nat>, logged': set<nat>, m: BlockMap, m': BlockMap, added: int, touched: nat,
                            u: LogUse) {
    && logged <= logged' <= logged + u.data + u.maps + u.ind
    && |u.data| <= touched
    && |u.maps| <= added + (if m'[MAXFILE] == m[MAXFILE] then 0 else 1)
    && (m[MAXFILE] != 0 ==> m'[MAXFILE] == m[MAXFILE])
    && (u.ind == {} || (u.ind == {m'[MAXFILE]} && m'[MAXFILE] != 0))
  }

  /** What writing data block bn logs: the block, its indirect block, and the bitmap blocks of new blocks. */
  ghost predicate BlockLogged(logged: set<nat>, logged': set<nat>, m: BlockMap, m': BlockMap, bn: nat, maps: set<nat>) {
    && bn < MAXFILE && m'[bn] != 0 && (bn >= NDIRECT ==> m'[MAXFILE] != 0)
    && |maps| <= |Missing(m, bn)|
    && logged <= logged' <= logged + maps + {m'[bn], m'[if bn < NDIRECT then bn else MAXFILE]}
  }

  lemma LoggedTwice(logged: set<nat>, logged': set<nat>, m: BlockMap, m': BlockMap, bn: nat, maps: set<nat>,
                    maps': set<nat>)
    requires NDIRECT <= bn < MAXFILE && m'[bn] != 0 && m'[MAXFILE] != 0
    requires |maps| <= |Gap(m, MAXFILE)| && |maps'| <= |Gap(m, bn)|
    requires |Missing(m, bn)| == |Gap(m, MAXFILE)| + |Gap(m, bn)|
    requires logged <= logged' <= logged + maps + {m'[MAXFILE]} + maps' + {m'[bn], m'[MAXFILE]}
    ensures BlockLogged(logged, logged', m, m', bn, maps + maps')
  {
  }

  ghost function LogMore(u: LogUse, m: BlockMap, bn: nat, maps: set<nat>): LogUse
    requires bn < MAXFILE
  {
    LogUse(u.data + {m[bn]}, u.maps + maps, if bn < NDIRECT then u.ind else {m[MAXFILE]})
  }

  lemma LogStep(logged: set<nat>, logged': set<nat>, logged'': set<nat>, m: BlockMap, m': BlockMap, m'': BlockMap,
                nb: nat, added: int, touched: nat, bn: nat, u: LogUse, maps: set<nat>)
    requires LogWithin(logged, logged', m, m', added, touched, u)
    requires Dense(m', nb) && bn <= nb && bn < MAXFILE
    requires BlockLogged(logged', logged'', m', m'', bn, maps) && Filled(m', m'', Missing(m', bn))
    ensures LogWithin(logged, logged'', m, m'', added + Max(nb, bn + 1) - nb, touched + 1, LogMore(u, m'', bn, maps))
  {
    DenseExtends(m', m'', nb, bn);
    LogUnion(logged, logged', logged'', u, LogMore(u, m'', bn, maps), m''[bn], maps,
      m''[if bn < NDIRECT then bn else MAXFILE]);
  }

  lemma LogUnion(logged: set<nat>, logged': set<nat>, logged'': set<nat>, u: LogUse, u': LogUse, b: nat,
                 maps: set<nat>, c: nat)
    requires logged' <= logged + u.data + u.maps + u.ind
    requires logged'' <= logged' + maps + {b, c}
    requires u'.data == u.data + {b} && u'.maps == u.maps + maps && u.ind <= u'.ind && (c == b || c in u'.ind)
    ensures logged'' <= logged + u'.data + u'.maps + u'.ind
    ensures |u'.data| <= |u.data| + 1 && |u'.maps| <= |u.maps| + |maps|
  {
  }

  /** A write of at most three blocks' worth logs at most 4 data blocks, 4 bitmap blocks and the indirect block. */
  lemma LogTotal(logged: set<nat>, logged': set<nat>, m: BlockMap, m': BlockMap, size: nat, off: nat, n: nat, u: LogUse)
    requires LogWithin(logged, logged', m, m', BlocksAt(BlocksFor(size), off, off + n) - BlocksFor(size),
      Touched(off, off + n), u)
    requires off <= size && n <= 3 * BSIZE
    ensures |logged'| <= |logged| + 4 + 4 + 1
  {
    LogBudget(size, off, off + n);
    SubsetSize(logged', logged + u.data + u.maps + u.ind);
    assert |logged + u.data + u.maps + u.ind| <= |logged| + |u.data| + |u.maps| + |u.ind|;
  }

  /** Four blocks touched means the first one already existed, so at most three are new. */
  lemma LogBudget(size: nat, off: nat, cur: nat)
    requires off <= size && off <= cur <= off + 3 * BSIZE
    ensures Touched(off, cur) <= 4 && BlocksAt(BlocksFor(size), off, cur) - BlocksFor(size) <= 3
  {
  }

  // ---------- files and log together ----------

  /** Inside a write of [off, off + n) that began in state v with log log0 and has reached cur. */
  ghost predicate InWrite(v: View, log0: set<nat>, v': View, log': set<nat>, i: nat, off: nat, n: nat, cur: nat,
                          src: seq<byte>, u: LogUse) {
    && i < |v.inodes| && Writing(v, v', i, off, cur, src)
    && (var nb := BlocksFor(v.inodes[i].size);
        LogWithin(log0, log', v.table[i], v'.table[i], BlocksAt(nb, off, cur) - nb, Touched(off, cur), u))
    && (cur == off || cur == off + n || cur % BSIZE == 0)
  }

  lemma WriteStarts(v: View, log0: set<nat>, i: nat, off: nat, n: nat, src: seq<byte>)
    requires DenseAll(v) && i < |v.inodes|
    ensures InWrite(v, log0, v, log0, i, off, n, off, src, LogUse({}, {}, {}))
  {
  }

  lemma WriteContinues(v: View, log0: set<nat>, v': View, log': set<nat>, v'': View, log'': set<nat>,
                       i: nat, off: nat, n: nat, cur: nat, next: nat, piece: seq<byte>, src: seq<byte>, u: LogUse,
                         maps: set<nat>)
    requires InWrite(v, log0, v', log', i, off, n, cur, src, u)
    requires off <= v.inodes[i].size && off <= cur < next <= off + n <= MAXFILE * BSIZE && n <= |src|
    requires piece == src[cur - off..next - off] && cur % BSIZE + |piece| <= BSIZE
      && (next == off + n || next % BSIZE == 0)
    requires OnlyAddrs(v', v'', i) && Filled(v'.table[i], v''.table[i], Missing(v'.table[i], cur / BSIZE))
    requires Overlaid(v', v'', i, cur, next, piece)
    requires BlockLogged(log', log'', v'.table[i], v''.table[i], cur / BSIZE, maps)
    ensures InWrite(v, log0, v'', log'', i, off, n, next, src, LogMore(u, v''.table[i], cur / BSIZE, maps))
  {
    var nb := BlocksFor(v.inodes[i].size);
    WritingStep(v, v', v'', i, off, cur, next, piece, src);
    StepBlocks(v.inodes[i].size, off, cur, next);
    LogStep(log0, log', log'', v.table[i], v'.table[i], v''.table[i], BlocksAt(nb, off, cur),
      BlocksAt(nb, off, cur) - nb,
            Touched(off, cur), cur / BSIZE, u, maps);
  }
}
