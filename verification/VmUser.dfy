/** User memory as bytes at user addresses, and what writing some of them leaves alone. */
module VmUser {
  import opened Bytes
  import opened VmLedger
  import opened VmSpace

  /** User address a is mapped. */
  ghost predicate Mapt(v: View, d: nat, a: nat) {
    d in v.spaces && a < KERNBASE && Present(v.spaces[d].pte[a / PGSIZE])
      && Frame(v.spaces[d].pte[a / PGSIZE]) < |v.mem|
  }

  /** User address a is mapped and open to the user. */
  ghost predicate Open(v: View, d: nat, a: nat) {
    Mapt(v, d, a) && UserBit(v.spaces[d].pte[a / PGSIZE])
  }

  /** There is a page table for address a (addresses wrap around). */
  ghost predicate HasTable(v: View, d: nat, a: nat)
    requires d in v.spaces
  {
    Present(v.spaces[d].pde[a % WORD_LIMIT / PGSIZE / NPTENTRIES])
  }

  /** Page x has lost the user's access; nothing else has changed. */
  ghost predicate Closed(v: View, v': View, d: nat, x: nat) {
    && d in v.spaces && x < KERNPAGE
    && v'.spaces == v.spaces[d := v.spaces[d].(pte := v.spaces[d].pte[x := WithoutUser(v.spaces[d].pte[x])])]
    && v'.role == v.role && v'.free == v.free && v'.held == v.held && UsersKept(v, v')
  }

  lemma SamePages(v: View, d: nat, cur: nat, n: nat)
    requires cur % PGSIZE + n <= PGSIZE && Open(v, d, cur)
    ensures forall a :: cur <= a < cur + n ==> Open(v, d, a)
  {
    forall a | cur <= a < cur + n
      ensures Open(v, d, a)
    {
      assert a / PGSIZE == cur / PGSIZE;
    }
  }

  /** The byte at user address a. */
  ghost function ByteAt(v: View, d: nat, a: nat): byte
    requires Mapt(v, d, a)
  {
    v.mem[Frame(v.spaces[d].pte[a / PGSIZE])][a % PGSIZE]
  }

  /** Only contents of user pages of space d may differ. */
  ghost predicate OnlyPagesOf(v: View, v': View, d: nat) {
    && v'.spaces == v.spaces && v'.role == v.role && v'.free == v.free && v'.held == v.held && |v'.mem| == |v.mem|
    && forall f {:trigger v'.mem[f]} :: 0 <= f < |v.mem| && !(f in v.role && v.role[f].User? && v.role[f].d == d) ==>
       v'.mem[f] == v.mem[f]
  }

  /** data has been written at user address va of space d; no other byte has changed. */
  ghost predicate Poked(v: View, v': View, d: nat, va: nat, data: seq<byte>) {
    && OnlyPagesOf(v, v', d)
    && forall a: nat {:trigger ByteAt(v', d, a)} :: Mapt(v, d, a) ==>
         ByteAt(v', d, a) == if va <= a < va + |data| then data[a - va] else ByteAt(v, d, a)
  }

  lemma PokedNothing(v: View, d: nat, va: nat)
    ensures Poked(v, v, d, va, [])
  {
  }

  lemma PokedTwice(v: View, v': View, v'': View, d: nat, va: nat, first: seq<byte>, cur: nat, piece: seq<byte>,
                   both: seq<byte>)
    requires cur == va + |first| && both == first + piece
    requires Poked(v, v', d, va, first) && Poked(v', v'', d, cur, piece)
    ensures Poked(v, v'', d, va, both)
  {
    forall a: nat | Mapt(v, d, a)
      ensures ByteAt(v'', d, a) == if va <= a < va + |both| then both[a - va] else ByteAt(v, d, a)
    {
      assert Mapt(v', d, a);
      assert ByteAt(v', d, a) == if va <= a < cur then first[a - va] else ByteAt(v, d, a);
    }
  }

  /** The n addresses from va on are open to the user. */
  ghost predicate AllOpen(v: View, d: nat, va: nat, n: nat) {
    forall a :: va <= a < va + n ==> Open(v, d, a)
  }

  /** Copying n bytes to va comes to an address without a page table before it comes to a closed page. */
  ghost predicate CopyReadsNull(v: View, d: nat, va: nat, n: nat)
    requires d in v.spaces
  {
    exists i: nat {:trigger AllOpen(v, d, va, i)} :: i < n && AllOpen(v, d, va, i) && !HasTable(v, d, va + i)
  }

  lemma OpenHasTable(v: View, d: nat, a: nat)
    requires Ledger(v) && Open(v, d, a)
    ensures HasTable(v, d, a)
  {
    var x := a / PGSIZE;
    assert a % WORD_LIMIT == a;
    assert v.spaces[d].pte[x] == Walked(v.mem, v.spaces[d].pde, x);
  }

  lemma NoNullReadWhenOpen(v: View, d: nat, va: nat, n: nat)
    requires Ledger(v) && d in v.spaces && AllOpen(v, d, va, n)
    ensures !CopyReadsNull(v, d, va, n)
  {
    forall i: nat | i < n && AllOpen(v, d, va, i)
      ensures HasTable(v, d, va + i)
    {
      OpenHasTable(v, d, va + i);
    }
  }

  lemma StopsBeforeNullRead(v: View, d: nat, va: nat, n: nat, i: nat, cur: nat)
    requires Ledger(v) && d in v.spaces && i < n && cur == va + i && AllOpen(v, d, va, i) && !Open(v, d, cur)
      && HasTable(v, d, cur)
    ensures !CopyReadsNull(v, d, va, n) && !AllOpen(v, d, va, n)
  {
    forall j: nat | j < n && AllOpen(v, d, va, j)
      ensures HasTable(v, d, va + j)
    {
      assert j <= i;
      if j < i {
        OpenHasTable(v, d, va + j);
      }
    }
  }

  lemma RoundEnds(cur: nat, n: nat, len: nat)
    requires cur < KERNBASE && n == if PGSIZE - (cur - PgRoundDown(cur)) > len then len
      else PGSIZE - (cur - PgRoundDown(cur))
    ensures n < len ==> (PgRoundDown(cur) + PGSIZE) % WORD_LIMIT == cur + n < WORD_LIMIT
  {
  }

  /** The first i bytes of p have been copied to va, where everything is open to the user. */
  ghost predicate CopiedOut(v: View, v': View, d: nat, va: nat, p: seq<byte>, i: nat) {
    i <= |p| && Poked(v, v', d, va, p[..i]) && AllOpen(v, d, va, i)
  }

  lemma CopiedNothing(v: View, d: nat, va: nat, p: seq<byte>)
    ensures CopiedOut(v, v, d, va, p, 0)
  {
    assert p[..0] == [];
  }

  lemma CopiedMore(v: View, v': View, v'': View, d: nat, va: nat, p: seq<byte>, i: nat, next: nat, cur: nat,
                   piece: seq<byte>)
    requires CopiedOut(v, v', d, va, p, i) && i <= next <= |p| && d in v.spaces
    requires cur == va + i && piece == p[i..next]
    requires Poked(v', v'', d, cur, piece) && forall a :: cur <= a < cur + |piece| ==> Open(v', d, a)
    ensures CopiedOut(v, v'', d, va, p, next)
  {
    assert p[..next] == p[..i] + piece;
    PokedTwice(v, v', v'', d, va, p[..i], cur, piece, p[..next]);
    forall a | va <= a < va + next
      ensures Open(v, d, a)
    {
      if a >= cur {
        assert Open(v', d, a);
      }
    }
  }

  /** n bytes of a file from off on. */
  function From(file: seq<byte>, off: nat, n: nat): seq<byte> {
    if off + n <= |file| then file[off..off + n] else []
  }

  /** n bytes of the file from off on are there, and have been read to va. */
  ghost predicate LoadedTo(v: View, v': View, d: nat, va: nat, file: seq<byte>, off: nat, n: nat) {
    (n == 0 || off + n <= |file|) && Poked(v, v', d, va, From(file, off, n))
  }

  lemma LoadedAll(v: View, v': View, d: nat, va: nat, file: seq<byte>, off: nat, n: nat, sz: nat)
    requires LoadedTo(v, v', d, va, file, off, n) && n == sz
    ensures Poked(v, v', d, va, From(file, off, sz)) && (sz == 0 || off + sz <= |file|)
  {
  }

  lemma MaptKept(v: View, v': View, d: nat, a: nat)
    requires OnlyPagesOf(v, v', d) && Mapt(v, d, a)
    ensures Mapt(v', d, a)
  {
  }

  lemma NoWrap(off: nat, i: nat, size: nat)
    requires off < WORD_LIMIT && size < WORD_LIMIT && (i == 0 || off + i <= size)
    ensures (off + i) % WORD_LIMIT == off + i
  {
  }

  lemma NextPage(a: nat)
    requires a % PGSIZE == 0
    ensures (a + PGSIZE) % PGSIZE == 0
  {
  }

  lemma Aligned(a: nat, i: nat)
    requires a % PGSIZE == 0 && i % PGSIZE == 0
    ensures (a + i) % PGSIZE == 0 && (a + i) / PGSIZE * PGSIZE == a + i
  {
  }

  lemma FromSlices(file: seq<byte>, off: nat, i: nat, n: nat)
    requires off + i + n <= |file|
    ensures |From(file, off, i)| == i && From(file, off, i + n) == From(file, off, i) + file[off + i..off + i + n]
  {
  }

  lemma FromMore(v: View, v': View, v'': View, d: nat, va: nat, file: seq<byte>, off: nat, i: nat, n: nat, next: nat,
                 cur: nat, from: nat,
                 piece: seq<byte>)
    requires next == i + n && from == off + i && from + n <= |file| && piece == file[from..from + n] && cur == va + i
    requires LoadedTo(v, v', d, va, file, off, i) && Poked(v', v'', d, cur, piece)
    ensures LoadedTo(v, v'', d, va, file, off, next)
  {
    FromSlices(file, off, i, n);
    PokedTwice(v, v', v'', d, va, From(file, off, i), cur, piece, From(file, off, i + n));
  }

  /** The page with a piece stored at offset at. */
  function PageWith(page: Page, at: nat, piece: seq<byte>): (p: Page)
    requires at + |piece| <= PGSIZE
    ensures forall k :: 0 <= k < PGSIZE ==> p[k] == if at <= k < at + |piece| then piece[k - at] else page[k]
  {
    page[..at] + piece + page[at + |piece|..]
  }

  /** Overwriting part of one user page writes just those bytes. */
  lemma PagePoked(v: View, d: nat, x: nat, va: nat, piece: seq<byte>, page: Page)
    requires Ledger(v) && d in v.spaces && x < KERNPAGE && Present(v.spaces[d].pte[x])
      && Frame(v.spaces[d].pte[x]) < |v.mem|
    requires va / PGSIZE == x && va % PGSIZE + |piece| <= PGSIZE
    requires page == PageWith(v.mem[Frame(v.spaces[d].pte[x])], va % PGSIZE, piece)
    ensures Poked(v, v.(mem := v.mem[Frame(v.spaces[d].pte[x]) := page]), d, va, piece)
  {
    var f := Frame(v.spaces[d].pte[x]);
    var v' := v.(mem := v.mem[f := page]);
    assert v.role[f] == User(d, x);
    forall a: nat | Mapt(v, d, a)
      ensures ByteAt(v', d, a) == if va <= a < va + |piece| then piece[a - va] else ByteAt(v, d, a)
    {
      if Frame(v.spaces[d].pte[a / PGSIZE]) == f {
        assert v.role[f] == User(d, a / PGSIZE);
        assert a / PGSIZE == x;
        SameOffset(a, va);
      } else {
        assert a / PGSIZE != x;
        OtherPage(a, va, |piece|);
      }
    }
  }

  lemma RoundDown(a: nat)
    ensures PgRoundDown(a) / PGSIZE == a / PGSIZE && a - PgRoundDown(a) == a % PGSIZE
  {
  }

  lemma SameOffset(a: nat, va: nat)
    requires a / PGSIZE == va / PGSIZE
    ensures a - va == a % PGSIZE - va % PGSIZE
  {
  }

  lemma OtherPage(a: nat, va: nat, n: nat)
    requires a / PGSIZE != va / PGSIZE && va % PGSIZE + n <= PGSIZE
    ensures !(va <= a < va + n)
  {
  }

  /** A new space stays a new space when its pages are written. */
  lemma AddedPoked(v: View, v': View, v'': View, d: nat)
    requires Ledger(v) && Added(v, v', d) && OnlyPagesOf(v', v'', d)
    ensures Added(v, v'', d)
  {
    forall f | 0 <= f < |v.mem| && (f in v.role || f in v.held)
      ensures v''.mem[f] == v'.mem[f]
    {
      if f in v.role {
        assert HasRole(v, f);
      }
    }
  }

  lemma OnlyPagesTwice(v: View, v': View, v'': View, d: nat)
    requires OnlyPagesOf(v, v', d) && OnlyPagesOf(v', v'', d)
    ensures OnlyPagesOf(v, v'', d)
  {
  }

  /** No page above KERNBASE is open to the user. */
  ghost predicate KernelClosed(t: Space) {
    forall x: nat :: KERNPAGE <= x < NPAGES ==> !UserBit(t.pte[x])
  }

  lemma EntryClosed(f: nat, perm: nat)
    requires f < NPAGES && (perm == 0 || perm == PTE_W)
    ensures !UserBit(Entry(f, perm))
  {
    EntryGrants(f, perm);
    GrantedRights(Entry(f, perm), f, perm);
  }

  lemma {:induction false} KernelEntryClosed(kmap: seq<KernelRange>, k: nat, x: nat)
    requires KmapOk(kmap) && k <= |kmap| && x < NPAGES
    ensures !UserBit(KernelEntry(kmap, k, x))
  {
    if k > 0 {
      if kmap[k - 1].Has(x) {
        RangePages(kmap[k - 1]);
        EntryClosed(kmap[k - 1].start / PGSIZE + (x - kmap[k - 1].virt / PGSIZE), kmap[k - 1].perm);
      } else {
        KernelEntryClosed(kmap, k - 1, x);
      }
    }
  }

  lemma KernelOnlyClosed(kmap: seq<KernelRange>, t: Space)
    requires KmapOk(kmap) && KernelOnly(kmap, |kmap|, t)
    ensures KernelClosed(t) && Sized(t, 0)
  {
    forall x: nat | KERNPAGE <= x < NPAGES
      ensures !UserBit(t.pte[x])
    {
      KernelEntryClosed(kmap, |kmap|, x);
      assert t.pte[x] == KernelEntry(kmap, |kmap|, x);
    }
  }
}
