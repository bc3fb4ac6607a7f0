/** The stack half of exec: two new pages, the argument strings, and the argument block, and just when that works. */
module ExecStack {
  import opened Outcomes
  import opened Bytes
  import opened VmLedger
  import opened VmSpace
  import opened VmUser
  import opened VirtualMemory
  import opened ExecImage

  const MAXARG: nat := 32

  // ----- What becomes of the arguments

  /** Where n bytes below sp begin, rounded down to a word, in 32-bit arithmetic. */
  function Down(sp: nat, n: nat): nat {
    var t := (sp - n) % WORD_LIMIT;
    t - t % 4
  }

  /** Where the stack pointer ends up; or copyout says -1; or the kernel reads through a null pointer. */
  datatype Fate = Fits(sp: nat) | Refused | ReadsNull

  /** Some line of kmap has a page in the 4 Mbytes around address a. */
  predicate Covered(kmap: seq<KernelRange>, a: nat) {
    Meets(kmap, |kmap|, a / PGSIZE / NPTENTRIES)
  }

  /** Copying n bytes below sp, in an image of sz bytes whose top page is the stack. */
  function PushFate(kmap: seq<KernelRange>, sz: nat, sp: nat, n: nat): Fate {
    var a := Down(sp, n);
    if n <= sp then if sz - PGSIZE <= a then Fits(a) else Refused
    else if Covered(kmap, a) then Refused
    else ReadsNull
  }

  /** What a step does when fate has been settled: success, -1, or a read through a null pointer. */
  predicate AsFated(r: Outcome<bool>, f: Fate) {
    match f
    case Fits(_) => r == Done(true)
    case Refused => r == Done(false)
    case ReadsNull => r == Panic
  }

  /** The loop over argv, from string argc on. */
  function StringsFate(kmap: seq<KernelRange>, sz: nat, sp: nat, argv: seq<seq<byte>>, argc: nat): Fate
    decreases |argv| - argc
  {
    if argc >= |argv| then Fits(sp)
    else if argc >= MAXARG then Refused
    else
      match PushFate(kmap, sz, sp, |argv[argc]| + 1)
      case Fits(sp') => StringsFate(kmap, sz, sp', argv, argc + 1)
      case f => f
  }

  /** Strings and argument block together. */
  function StackFate(kmap: seq<KernelRange>, sz: nat, argv: seq<seq<byte>>): Fate {
    match StringsFate(kmap, sz, sz, argv, 0)
    case Fits(sp) => var a := sp - 4 * (3 + |argv| + 1); if 0 <= a && sz - PGSIZE <= a then Fits(a) else Refused
    case f => f
  }

  /** Arguments that are shorter than a page never make exec read through a null pointer. */
  lemma ShortArgumentsAreSafe(kmap: seq<KernelRange>, sz: nat, argv: seq<seq<byte>>)
    requires 2 * PGSIZE <= sz < KERNBASE && forall k :: 0 <= k < |argv| ==> |argv[k]| + 1 <= PGSIZE
    ensures !StackFate(kmap, sz, argv).ReadsNull?
  {
    ShortStringsAreSafe(kmap, sz, sz, argv, 0);
  }

  lemma {:induction false} ShortStringsAreSafe(kmap: seq<KernelRange>, sz: nat, sp: nat, argv: seq<seq<byte>>,
      argc: nat)
    requires 2 * PGSIZE <= sz < KERNBASE && sz - PGSIZE <= sp && forall k :: 0 <= k < |argv| ==> |argv[k]| + 1 <= PGSIZE
    ensures !StringsFate(kmap, sz, sp, argv, argc).ReadsNull?
    decreases |argv| - argc
  {
    if argc < |argv| && argc < MAXARG {
      var f := PushFate(kmap, sz, sp, |argv[argc]| + 1);
      if f.Fits? {
        ShortStringsAreSafe(kmap, sz, f.sp, argv, argc + 1);
      }
    }
  }

  /** xv6's kmap; data is the physical address of the kernel's data. */
  function Xv6Kmap(data: nat): seq<KernelRange> {
    [KernelRange(KERNBASE, 0, 0x10_0000, PTE_W),
     KernelRange(KERNBASE + 0x10_0000, 0x10_0000, data, 0),
     KernelRange(KERNBASE + data, data, 0xE00_0000, PTE_W),
     KernelRange(0xFE00_0000, 0xFE00_0000, 0, PTE_W)]
  }

  /** A header of 52 bytes with the magic number and no program headers. */
  function EmptyElf(): seq<byte> {
    [0x7F, 0x45, 0x4C, 0x46] + seq(ELFHDR - 4, i => 0)
  }

  /**
   * With xv6's kmap and the smallest program: an argument of 64 Mbytes more than the stack pointer makes it wrap around
   * into the hole between the kernel's memory and the devices, where there is no page table.
   */
  lemma LongArgumentReadsNull(data: nat, arg: seq<byte>)
    requires 0x10_0000 < data < 0xE00_0000 && data % PGSIZE == 0 && |arg| + 1 == 2 * PGSIZE + 0x400_0000
    ensures KmapOk(Xv6Kmap(data)) && Loadable(EmptyElf()) && StackTop(EmptyElf()) == 2 * PGSIZE
    ensures StackFate(Xv6Kmap(data), StackTop(EmptyElf()), [arg]) == ReadsNull
  {
    Xv6KmapOk(data);
    EmptyElfLoads();
    HoleBelowDevices(data);
    var kmap, sz := Xv6Kmap(data), 2 * PGSIZE;
    assert Down(sz, |arg| + 1) == 0xFC00_0000;
    assert PushFate(kmap, sz, sz, |arg| + 1) == ReadsNull;
    assert StringsFate(kmap, sz, sz, [arg], 0) == ReadsNull;
  }

  lemma Xv6KmapOk(data: nat)
    requires 0x10_0000 < data < 0xE00_0000 && data % PGSIZE == 0
    ensures KmapOk(Xv6Kmap(data))
  {
    var kmap, k := Xv6Kmap(data), data / PGSIZE;
    assert data == PGSIZE * k;
    assert kmap[1].Size() == PGSIZE * (k - 0x100) && kmap[2].Size() == PGSIZE * (0xE000 - k)
      && kmap[2].virt == PGSIZE * (0x80000 + k);
    assert kmap[0].Size() == 0x10_0000 && kmap[3].Size() == 0x200_0000;
    assert RangeOk(kmap[0]);
    assert RangeOk(kmap[1]) by { Whole(k - 0x100); }
    assert RangeOk(kmap[2]) by { Whole(0xE000 - k); Whole(0x80000 + k); }
    assert RangeOk(kmap[3]);
  }

  lemma Whole(k: nat)
    ensures PGSIZE * k % PGSIZE == 0
  {
  }

  lemma HoleBelowDevices(data: nat)
    requires 0x10_0000 < data < 0xE00_0000 && data % PGSIZE == 0
    ensures !Covered(Xv6Kmap(data), 0xFC00_0000)
  {
    var kmap := Xv6Kmap(data);
    assert kmap[3].Size() == 0x200_0000 && kmap[3].virt / PGSIZE == 0xFE000;
    assert !InSlots(kmap[3].virt / PGSIZE, kmap[3].Size() / PGSIZE, 1008);
    assert kmap[2].Size() == 0xE00_0000 - data && kmap[2].virt / PGSIZE == 0x80000 + data / PGSIZE;
    assert !InSlots(kmap[2].virt / PGSIZE, kmap[2].Size() / PGSIZE, 1008);
    assert kmap[1].Size() == data - 0x10_0000;
    assert !InSlots(kmap[1].virt / PGSIZE, kmap[1].Size() / PGSIZE, 1008);
    assert !InSlots(kmap[0].virt / PGSIZE, kmap[0].Size() / PGSIZE, 1008);
    assert !Meets(kmap, 0, 1008);
    assert !Meets(kmap, 1, 1008);
    assert !Meets(kmap, 2, 1008);
    assert !Meets(kmap, 3, 1008);
    assert 0xFC00_0000 / PGSIZE / NPTENTRIES == 1008;
  }

  lemma EmptyElfLoads()
    ensures Loadable(EmptyElf()) && StackTop(EmptyElf()) == 2 * PGSIZE
  {
    var file := EmptyElf();
    assert file[..ELFHDR] == file;
    assert GetWord(file, 0) == ELF_MAGIC;
    assert PhNum(file) == 0;
    assert HeadersOk(file, PhOff(file), 0);
  }

  /** The size of the image with its two stack pages. */
  function StackTop(file: seq<byte>): nat
    requires IsElf(file)
  {
    PgRoundUp(ImageSize(file)) + 2 * PGSIZE
  }

  // ----- The stack

  /** The top page of [0, sz) is open to the user, the page below it is not. */
  ghost predicate Guarded(kmap: seq<KernelRange>, v: View, now: View, d: nat, sz: nat) {
    && Building(kmap, v, now, d, sz) && sz % PGSIZE == 0 && 2 * PGSIZE <= sz < KERNBASE
    && UserBit(now.spaces[d].pte[sz / PGSIZE - 1]) && !UserBit(now.spaces[d].pte[sz / PGSIZE - 2])
  }

  /** The stack pages are there, and the image is below them. */
  ghost predicate Staged(kmap: seq<KernelRange>, v: View, now: View, d: nat, sz: nat, file: seq<byte>,
                         segs: seq<ProgHdr>) {
    Guarded(kmap, v, now, d, sz) && Imaged(now, d, sz - 2 * PGSIZE, file, segs)
  }

  /** Two more pages behind the image, the first of them closed to the user. */
  method MakeStack(m: Machine, d: nat, sz0: nat, ghost v: View, ghost file: seq<byte>, ghost segs: seq<ProgHdr>)
    returns (ok: bool, sz: nat)
    requires m.Valid() && Building(m.kmap, v, m.Now(), d, sz0) && Imaged(m.Now(), d, Pages(sz0) * PGSIZE, file, segs)
    modifies m
    ensures m.Valid() && Added(v, m.Now(), d)
    ensures sz == PgRoundUp(sz0) + 2 * PGSIZE && Settles(ok, sz < KERNBASE, old(m.refusals), m.refusals)
    ensures ok ==> Staged(m.kmap, v, m.Now(), d, sz, file, segs)
  {
    RoundedUp(sz0);
    var sz1 := PgRoundUp(sz0);
    ghost var w := m.Now();
    sz := sz1 + 2 * PGSIZE;
    PagesOfRounded(sz1, sz);
    var grown;
    ok, grown := GrowTo(m, d, sz1, sz, v);
    if ok {
      ImageStays(w, m.Now(), d, sz1, Pages(sz1), Pages(sz), file, segs);
      NewPagesOpen(w, m.Now(), d, sz);
      CloseGuard(m, d, sz, v, file, segs);
    }
  }

  /** Closes the lower of the two stack pages to the user. */
  method CloseGuard(m: Machine, d: nat, sz: nat, ghost v: View, ghost file: seq<byte>, ghost segs: seq<ProgHdr>)
    requires m.Valid() && Building(m.kmap, v, m.Now(), d, sz) && sz % PGSIZE == 0 && 2 * PGSIZE <= sz < KERNBASE
    requires UserBit(m.spaces[d].pte[sz / PGSIZE - 1]) && Imaged(m.Now(), d, sz - 2 * PGSIZE, file, segs)
    modifies m
    ensures m.Valid() && Staged(m.kmap, v, m.Now(), d, sz, file, segs) && m.refusals == old(m.refusals)
  {
    ghost var u := m.Now();
    GuardPage(sz);
    m.Clearpteu(d, sz - 2 * PGSIZE);
    BuildingClosed(m.kmap, v, u, m.Now(), d, sz, sz / PGSIZE - 2);
    ImageClosed(u, m.Now(), d, sz / PGSIZE - 2, sz - 2 * PGSIZE, file, segs);
  }

  /** The image is below the page that is closed. */
  lemma ImageClosed(u: View, now: View, d: nat, x: nat, n: nat, file: seq<byte>, segs: seq<ProgHdr>)
    requires Roles(u) && Closed(u, now, d, x) && n == x * PGSIZE && Imaged(u, d, n, file, segs)
    ensures Imaged(now, d, n, file, segs)
  {
    assert Grown(u, now, d);
    forall a: nat | a < n
      ensures Shows(now, d, a, ImageByte(file, segs, a))
    {
      PageOfAddress(a, x);
      assert Shows(u, d, a, ImageByte(file, segs, a));
      assert now.spaces[d].pte[a / PGSIZE] == u.spaces[d].pte[a / PGSIZE];
      ByteStays(u, now, d, a);
    }
  }

  lemma NewPagesOpen(w: View, u: View, d: nat, sz: nat)
    requires Ledger(w) && sz % PGSIZE == 0 && 2 * PGSIZE <= sz < KERNBASE
    requires Extended(w, u, d, sz / PGSIZE - 2, sz / PGSIZE)
    ensures UserBit(u.spaces[d].pte[sz / PGSIZE - 1])
  {
    assert FreshPage(w, u, u.spaces[d].pte[sz / PGSIZE - 1]);
    SevenIsOpen(u.spaces[d].pte[sz / PGSIZE - 1]);
  }

  lemma RoundedUp(sz: nat)
    requires sz <= KERNBASE
    ensures PgRoundUp(sz) % PGSIZE == 0 && Pages(PgRoundUp(sz)) == Pages(sz) && sz <= PgRoundUp(sz) <= KERNBASE
  {
  }

  lemma PagesOfRounded(sz: nat, newsz: nat)
    requires sz % PGSIZE == 0 && newsz == sz + 2 * PGSIZE
    ensures Pages(sz) == sz / PGSIZE == newsz / PGSIZE - 2 && Pages(newsz) == newsz / PGSIZE && newsz % PGSIZE == 0
  {
  }

  lemma GuardPage(sz: nat)
    requires sz % PGSIZE == 0 && 2 * PGSIZE <= sz < KERNBASE
    ensures (sz - 2 * PGSIZE) / PGSIZE == sz / PGSIZE - 2 && 2 <= sz / PGSIZE == Pages(sz) <= KERNPAGE
  {
  }

  lemma SevenIsOpen(e: nat)
    requires Flags(e) == 7
    ensures UserBit(e)
  {
    assert e == 8 * (512 * (e / PGSIZE)) + 7;
    assert e / 4 == 2 * (512 * (e / PGSIZE)) + 1;
  }

  lemma BuildingClosed(kmap: seq<KernelRange>, v: View, w: View, now: View, d: nat, sz: nat, x: nat)
    requires Building(kmap, v, w, d, sz) && Ledger(now) && Closed(w, now, d, x)
    ensures Building(kmap, v, now, d, sz)
    ensures !UserBit(now.spaces[d].pte[x]) && forall y: nat :: y < NPAGES && y != x ==>
      now.spaces[d].pte[y] == w.spaces[d].pte[y]
  {
    assert Grown(w, now, d);
    AddedGrows(v, w, now, d);
  }

  /** data is at user address a. */
  ghost predicate BytesAt(v: View, d: nat, a: nat, data: seq<byte>) {
    forall b: nat :: a <= b < a + |data| ==> Mapt(v, d, b) && ByteAt(v, d, b) == data[b - a]
  }

  lemma JustPoked(v: View, v': View, d: nat, a: nat, data: seq<byte>)
    requires Poked(v, v', d, a, data) && forall b :: a <= b < a + |data| ==> Open(v, d, b)
    ensures BytesAt(v', d, a, data)
  {
    forall b: nat | a <= b < a + |data|
      ensures Mapt(v', d, b) && ByteAt(v', d, b) == data[b - a]
    {
      assert Open(v, d, b);
      MaptKept(v, v', d, b);
    }
  }

  lemma StillThere(v: View, v': View, d: nat, a: nat, data: seq<byte>, b: nat, more: seq<byte>)
    requires BytesAt(v, d, a, data) && Poked(v, v', d, b, more) && b + |more| <= a
    ensures BytesAt(v', d, a, data)
  {
    forall c: nat | a <= c < a + |data|
      ensures Mapt(v', d, c) && ByteAt(v', d, c) == data[c - a]
    {
      MaptKept(v, v', d, c);
      assert ByteAt(v, d, c) == data[c - a];
    }
  }

  lemma InGuardPage(kmap: seq<KernelRange>, v: View, now: View, d: nat, sz: nat, b: nat)
    requires Guarded(kmap, v, now, d, sz) && sz - 2 * PGSIZE <= b < sz - PGSIZE
    ensures !Open(now, d, b)
  {
    assert b / PGSIZE == sz / PGSIZE - 2;
  }

  /** A write that succeeds just below sp stays in the stack page, because the guard page stops it. */
  lemma StaysAboveGuard(kmap: seq<KernelRange>, v: View, now: View, d: nat, sz: nat, sp: nat, a: nat, n: nat)
    requires Guarded(kmap, v, now, d, sz) && sz - PGSIZE <= sp <= sz && sp % 4 == 0
    requires 0 < n && a + n <= sp < a + n + 4 && a % 4 == 0 && forall b :: a <= b < a + n ==> Open(now, d, b)
    ensures sz - PGSIZE <= a
  {
    if a < sz - PGSIZE {
      var guard := if a + n <= sz - PGSIZE then a + n - 1 else sz - PGSIZE - 1;
      assert a <= guard < a + n && Open(now, d, guard);
      InGuardPage(kmap, v, now, d, sz, guard);
    }
  }

  /** The arguments pushed so far: each string with its NUL, one below the other, in the page above the guard page. */
  ghost predicate Pushed(now: View, d: nat, sz: nat, sp: nat, args: seq<seq<byte>>, ptrs: seq<nat>) {
    && |ptrs| == |args| && sp == Below(sz, ptrs, |ptrs|) && sz - PGSIZE <= sp <= sz && sp % 4 == 0
    && forall k {:trigger Placed(now, d, sz, args, ptrs, k)} :: 0 <= k < |ptrs| ==>
         sz - PGSIZE <= ptrs[k] && Placed(now, d, sz, args, ptrs, k)
  }

  /** String k and its NUL are at its pointer, and end below the string before. */
  ghost predicate Placed(now: View, d: nat, sz: nat, args: seq<seq<byte>>, ptrs: seq<nat>, k: nat)
    requires k < |ptrs| == |args|
  {
    ptrs[k] + |args[k]| + 1 <= Below(sz, ptrs, k) && BytesAt(now, d, ptrs[k], args[k] + [0])
  }

  /** Where string k has to end: at the one before, or at the top of the stack. */
  function Below(sz: nat, ptrs: seq<nat>, k: nat): nat
    requires k <= |ptrs|
  {
    if k == 0 then sz else ptrs[k - 1]
  }

  lemma PtrsDescend(now: View, d: nat, sz: nat, sp: nat, args: seq<seq<byte>>, ptrs: seq<nat>, k: nat)
    requires Pushed(now, d, sz, sp, args, ptrs) && k < |ptrs|
    ensures sp <= ptrs[k]
    decreases |ptrs| - k
  {
    if k + 1 < |ptrs| {
      PtrsDescend(now, d, sz, sp, args, ptrs, k + 1);
      assert Placed(now, d, sz, args, ptrs, k + 1);
    }
  }

  lemma PushedMore(kmap: seq<KernelRange>, v: View, now: View, now': View, d: nat, sz: nat, sp: nat,
                   args: seq<seq<byte>>, ptrs: seq<nat>, s: seq<byte>, a: nat)
    requires Pushed(now, d, sz, sp, args, ptrs) && Guarded(kmap, v, now, d, sz)
    requires a + |s| + 1 <= sp < a + |s| + 5 && a % 4 == 0 && Poked(now, now', d, a, s + [0])
    requires forall b :: a <= b < a + |s| + 1 ==> Open(now, d, b)
    ensures Pushed(now', d, sz, a, args + [s], ptrs + [a])
  {
    StaysAboveGuard(kmap, v, now, d, sz, sp, a, |s| + 1);
    JustPoked(now, now', d, a, s + [0]);
    var args', ptrs' := args + [s], ptrs + [a];
    forall k | 0 <= k < |ptrs'|
      ensures sz - PGSIZE <= ptrs'[k] && Placed(now', d, sz, args', ptrs', k)
    {
      if k < |ptrs| {
        assert Placed(now, d, sz, args, ptrs, k);
        PtrsDescend(now, d, sz, sp, args, ptrs, k);
        StillThere(now, now', d, ptrs[k], args[k] + [0], a, s + [0]);
      }
    }
  }

  /** Anything inside [0, sz) has a page table, so that copyout reads through no null pointer there. */
  lemma InsideHasTables(kmap: seq<KernelRange>, v: View, now: View, d: nat, sz: nat, a: nat, n: nat)
    requires Building(kmap, v, now, d, sz) && a + n <= sz
    ensures forall b :: a <= b < a + n ==> HasTable(now, d, b)
  {
    forall b | a <= b < a + n
      ensures HasTable(now, d, b)
    {
      BuildingMapped(kmap, v, now, d, sz, b);
    }
  }

  lemma DownFits(sp: nat, n: nat)
    requires sp < KERNBASE && n < KERNBASE
    ensures Down(sp, n) < WORD_LIMIT && Down(sp, n) % 4 == 0
    ensures if n <= sp then Down(sp, n) + n <= sp < Down(sp, n) + n + 4 else Down(sp, n) >= KERNBASE
  {
    if n <= sp {
      assert (sp - n) % WORD_LIMIT == sp - n;
    } else {
      assert (sp - n) % WORD_LIMIT == sp - n + WORD_LIMIT;
    }
    var t := (sp - n) % WORD_LIMIT;
    assert (t - t % 4) % 4 == 0;
  }

  /** The stack page is open to the user, every byte of it. */
  lemma StackPageOpen(kmap: seq<KernelRange>, v: View, now: View, d: nat, sz: nat, a: nat, n: nat)
    requires Guarded(kmap, v, now, d, sz) && sz - PGSIZE <= a && a + n <= sz
    ensures AllOpen(now, d, a, n)
  {
    forall b | a <= b < a + n
      ensures Open(now, d, b)
    {
      BuildingMapped(kmap, v, now, d, sz, b);
      assert b / PGSIZE == sz / PGSIZE - 1;
    }
  }

  /** Below the top of the image copyout finds every page table, and succeeds exactly if it stays in the stack page. */
  lemma CopyBelowTop(kmap: seq<KernelRange>, v: View, now: View, d: nat, sz: nat, sp: nat, a: nat, n: nat)
    requires Guarded(kmap, v, now, d, sz) && sz - PGSIZE <= sp <= sz && sp % 4 == 0
    requires 0 < n && a + n <= sp < a + n + 4 && a % 4 == 0
    ensures !CopyReadsNull(now, d, a, n) && (AllOpen(now, d, a, n) <==> sz - PGSIZE <= a)
  {
    InsideHasTables(kmap, v, now, d, sz, a, n);
    if AllOpen(now, d, a, n) {
      StaysAboveGuard(kmap, v, now, d, sz, sp, a, n);
    }
    if sz - PGSIZE <= a {
      StackPageOpen(kmap, v, now, d, sz, a, n);
    }
  }

  /** At an address of the kernel copyout never succeeds, and reads through a null pointer if there is no page table. */
  lemma CopyAtKernel(kmap: seq<KernelRange>, v: View, now: View, d: nat, sz: nat, a: nat, n: nat)
    requires Building(kmap, v, now, d, sz) && KERNBASE <= a < WORD_LIMIT && 0 < n
    ensures !AllOpen(now, d, a, n) && (CopyReadsNull(now, d, a, n) <==> !Covered(kmap, a))
  {
    assert !Open(now, d, a);
    assert a % WORD_LIMIT == a;
    var i := a / PGSIZE / NPTENTRIES;
    assert Present(now.spaces[d].pde[i]) <==> Meets(kmap, |kmap|, i);
    assert AllOpen(now, d, a, 0);
    forall k: nat | k < n && AllOpen(now, d, a, k) ensures k == 0 {}
  }

  /** What copyout of a string of n bytes does, before it is done. */
  lemma PushForetold(kmap: seq<KernelRange>, v: View, now: View, d: nat, sz: nat, sp: nat, n: nat)
    requires Guarded(kmap, v, now, d, sz) && sz - PGSIZE <= sp <= sz && sp % 4 == 0 && 0 < n < KERNBASE
    ensures var a, f := Down(sp, n), PushFate(kmap, sz, sp, n);
            a < WORD_LIMIT && (CopyReadsNull(now, d, a, n) <==> f.ReadsNull?) && (AllOpen(now, d, a, n) <==> f.Fits?)
    ensures var f := PushFate(kmap, sz, sp, n); f.Fits? ==>
      f.sp == Down(sp, n) && f.sp + n <= sp < f.sp + n + 4 && f.sp % 4 == 0
  {
    DownFits(sp, n);
    var a := Down(sp, n);
    if n <= sp {
      CopyBelowTop(kmap, v, now, d, sz, sp, a, n);
    } else {
      CopyAtKernel(kmap, v, now, d, sz, a, n);
    }
  }

  /** One string, with sp moved down first: just as PushFate says. */
  method PushString(m: Machine, d: nat, sz: nat, sp: nat, s: seq<byte>, ghost v: View, ghost args: seq<seq<byte>>,
                    ghost ptrs: seq<nat>,
                    ghost file: seq<byte>, ghost segs: seq<ProgHdr>)
    returns (r: Outcome<bool>, sp': nat)
    requires m.Valid() && Staged(m.kmap, v, m.Now(), d, sz, file, segs) && Pushed(m.Now(), d, sz, sp, args, ptrs)
      && |s| + 1 < KERNBASE
    modifies m
    ensures m.refusals == old(m.refusals)
    ensures AsFated(r, PushFate(m.kmap, sz, sp, |s| + 1))
    ensures r.Done? ==> m.Valid() && Added(v, m.Now(), d) && sp' == Down(sp, |s| + 1)
    ensures r == Done(true) ==>
      Staged(m.kmap, v, m.Now(), d, sz, file, segs) && Pushed(m.Now(), d, sz, sp', args + [s], ptrs + [sp'])
  {
    ghost var w := m.Now();
    PushForetold(m.kmap, v, w, d, sz, sp, |s| + 1);
    sp' := Down(sp, |s| + 1);
    var c :- m.Copyout(d, sp', s + [0]);
    AddedPoked(v, w, m.Now(), d);
    if c < 0 {
      return Done(false), sp';
    }
    StagedPushed(m.kmap, v, w, m.Now(), d, sz, sp, args, ptrs, s, sp', file, segs);
    return Done(true), sp';
  }

  lemma StagedPushed(kmap: seq<KernelRange>, v: View, w: View, now: View, d: nat, sz: nat, sp: nat,
                     args: seq<seq<byte>>, ptrs: seq<nat>,
                     s: seq<byte>, a: nat, file: seq<byte>, segs: seq<ProgHdr>)
    requires Staged(kmap, v, w, d, sz, file, segs) && Pushed(w, d, sz, sp, args, ptrs) && Ledger(now)
    requires a + |s| + 1 <= sp < a + |s| + 5 && a % 4 == 0 && Poked(w, now, d, a, s + [0]) && AllOpen(w, d, a, |s| + 1)
    ensures Staged(kmap, v, now, d, sz, file, segs) && Pushed(now, d, sz, a, args + [s], ptrs + [a])
  {
    BuildingPoked(kmap, v, w, now, d, sz);
    PushedMore(kmap, v, w, now, d, sz, sp, args, ptrs, s, a);
    ImageBelow(w, now, d, sz - 2 * PGSIZE, a, s + [0], file, segs);
  }

  /** The first n arguments have been pushed. */
  ghost predicate Stacked(kmap: seq<KernelRange>, v: View, now: View, d: nat, sz: nat, sp: nat, argv: seq<seq<byte>>,
                          n: nat, ptrs: seq<nat>,
                          file: seq<byte>, segs: seq<ProgHdr>) {
    n <= |argv| && Staged(kmap, v, now, d, sz, file, segs) && Pushed(now, d, sz, sp, argv[..n], ptrs)
  }

  lemma StackedNone(kmap: seq<KernelRange>, v: View, now: View, d: nat, sz: nat, argv: seq<seq<byte>>, file: seq<byte>,
                    segs: seq<ProgHdr>)
    requires Staged(kmap, v, now, d, sz, file, segs)
    ensures Stacked(kmap, v, now, d, sz, sz, argv, 0, [], file, segs)
  {
    assert argv[..0] == [];
    PageIsAligned(sz);
  }

  lemma PageIsAligned(sz: nat)
    requires sz % PGSIZE == 0
    ensures sz % 4 == 0
  {
    assert sz == 4 * (1024 * (sz / PGSIZE));
  }

  /** One round of the loop of exec over argv. */
  method PushNext(m: Machine, d: nat, sz: nat, sp: nat, argv: seq<seq<byte>>, argc: nat, ghost ptrs: seq<nat>,
                  ghost v: View, ghost next: nat,
                  ghost file: seq<byte>, ghost segs: seq<ProgHdr>)
    returns (r: Outcome<bool>, sp': nat)
    requires m.Valid() && argc < |argv| && argc < MAXARG && next == argc + 1 && |argv[argc]| + 1 < KERNBASE
    requires Stacked(m.kmap, v, m.Now(), d, sz, sp, argv, argc, ptrs, file, segs)
    modifies m
    ensures m.refusals == old(m.refusals)
    ensures r != Done(true) ==> AsFated(r, StringsFate(m.kmap, sz, sp, argv, argc))
    ensures r.Done? ==> m.Valid() && Added(v, m.Now(), d)
    ensures r == Done(true) ==> Stacked(m.kmap, v, m.Now(), d, sz, sp', argv, next, ptrs + [sp'], file, segs)
    ensures r == Done(true) ==> StringsFate(m.kmap, sz, sp, argv, argc) == StringsFate(m.kmap, sz, sp', argv, next)
  {
    r, sp' := PushString(m, d, sz, sp, argv[argc], v, argv[..argc], ptrs, file, segs);
    TakeMore(argv, argc);
  }

  /** The loop of exec over argv: just as StringsFate says. */
  method PushStrings(m: Machine, d: nat, sz: nat, argv: seq<seq<byte>>, ghost v: View, ghost file: seq<byte>,
                     ghost segs: seq<ProgHdr>)
    returns (r: Outcome<bool>, sp: nat, ptrs: seq<nat>)
    requires m.Valid() && Staged(m.kmap, v, m.Now(), d, sz, file, segs) && forall k :: 0 <= k < |argv| ==>
      |argv[k]| + 1 < KERNBASE
    modifies m
    ensures m.refusals == old(m.refusals)
    ensures AsFated(r, StringsFate(m.kmap, sz, sz, argv, 0))
    ensures r.Done? ==> m.Valid() && Added(v, m.Now(), d)
    ensures r == Done(true) ==>
      && |argv| <= MAXARG && StringsFate(m.kmap, sz, sz, argv, 0) == Fits(sp)
      && Staged(m.kmap, v, m.Now(), d, sz, file, segs) && Pushed(m.Now(), d, sz, sp, argv, ptrs)
  {
    sp, ptrs := sz, [];
    var argc := 0;
    StackedNone(m.kmap, v, m.Now(), d, sz, argv, file, segs);
    while argc < |argv|
      invariant argc <= MAXARG && m.Valid() && Stacked(m.kmap, v, m.Now(), d, sz, sp, argv, argc, ptrs, file, segs)
      invariant Added(v, m.Now(), d) && m.refusals == old(m.refusals)
      invariant StringsFate(m.kmap, sz, sz, argv, 0) == StringsFate(m.kmap, sz, sp, argv, argc)
    {
      if argc >= MAXARG {
        return Done(false), sp, ptrs;
      }
      var next := argc + 1;
      r, sp := PushNext(m, d, sz, sp, argv, argc, ptrs, v, next, file, segs);
      if r != Done(true) {
        return r, sp, ptrs;
      }
      ptrs := ptrs + [sp];
      argc := next;
    }
    StackedAll(m.kmap, v, m.Now(), d, sz, sp, argv, argc, ptrs, file, segs);
    return Done(true), sp, ptrs;
  }

  lemma StackedAll(kmap: seq<KernelRange>, v: View, now: View, d: nat, sz: nat, sp: nat, argv: seq<seq<byte>>, n: nat,
                   ptrs: seq<nat>,
                   file: seq<byte>, segs: seq<ProgHdr>)
    requires Stacked(kmap, v, now, d, sz, sp, argv, n, ptrs, file, segs) && n == |argv|
    ensures Staged(kmap, v, now, d, sz, file, segs) && Pushed(now, d, sz, sp, argv, ptrs)
  {
    assert argv[..n] == argv;
  }

  lemma TakeMore<T>(s: seq<T>, n: nat)
    requires n < |s|
    ensures s[..n + 1] == s[..n] + [s[n]]
  {
  }

  // ----- The argument block

  /** ustack: the fake return address, argc, the address of argv, the pointers and the null behind them. */
  function Ustack(sp: nat, ptrs: seq<nat>): seq<nat> {
    [0xFFFF_FFFF, |ptrs|, sp + 12] + ptrs + [0]
  }

  /** The word at user address a. */
  ghost predicate WordAt(v: View, d: nat, a: nat, w: nat) {
    w < WORD_LIMIT && BytesAt(v, d, a, WordBytes(w))
  }

  /**
   * The argument block that a C program expects at its stack pointer: a return address, argc, argv, and, where argv
   * points, the pointers and a null.
   */
  ghost predicate BlockAt(v: View, d: nat, sp: nat, ptrs: seq<nat>) {
    && WordAt(v, d, sp, 0xFFFF_FFFF) && WordAt(v, d, sp + 4, |ptrs|) && WordAt(v, d, sp + 8, sp + 12)
    && WordAt(v, d, sp + 12 + 4 * |ptrs|, 0)
    && forall k {:trigger ptrs[k]} :: 0 <= k < |ptrs| ==> WordAt(v, d, sp + 12 + 4 * k, ptrs[k])
  }

  /**
   * What main finds: the argument block at sp, the strings that it points to above it,
   * all in the page above the guard page, none overlapping.
   */
  ghost predicate StackBuilt(v: View, d: nat, sz: nat, sp: nat, argv: seq<seq<byte>>, ptrs: seq<nat>) {
    && |ptrs| == |argv| && BlockAt(v, d, sp, ptrs)
    && sz - PGSIZE <= sp && sp + 4 * (4 + |argv|) <= Below(sz, ptrs, |ptrs|)
    && forall k {:trigger Placed(v, d, sz, argv, ptrs, k)} :: 0 <= k < |ptrs| ==>
         sp + 4 * (4 + |argv|) <= ptrs[k] && Placed(v, d, sz, argv, ptrs, k)
  }

  /** Word i of a block that has been copied out. */
  lemma WordOfBlock(v: View, d: nat, a: nat, ws: seq<nat>, i: nat, w: nat, at: nat)
    requires WordsOk(ws) && BytesAt(v, d, a, Flat(ws)) && i < |ws| && w == ws[i] && at == a + 4 * i
    ensures WordAt(v, d, at, w)
  {
    FlatBytes(ws, i);
    BytesPart(v, d, a, Flat(ws), 4 * i, at, WordBytes(w));
  }

  lemma BytesPart(v: View, d: nat, a: nat, data: seq<byte>, lo: nat, at: nat, part: seq<byte>)
    requires BytesAt(v, d, a, data) && lo + |part| <= |data| && at == a + lo && part == data[lo..lo + |part|]
    ensures BytesAt(v, d, at, part)
  {
    forall b: nat | at <= b < at + |part|
      ensures Mapt(v, d, b) && ByteAt(v, d, b) == part[b - at]
    {
      assert ByteAt(v, d, b) == data[b - a];
    }
  }

  lemma BlockComplete(v: View, d: nat, sp: nat, ptrs: seq<nat>)
    requires WordsOk(Ustack(sp, ptrs)) && BytesAt(v, d, sp, Flat(Ustack(sp, ptrs)))
    ensures BlockAt(v, d, sp, ptrs)
  {
    var ws, n := Ustack(sp, ptrs), |ptrs|;
    WordOfBlock(v, d, sp, ws, 0, 0xFFFF_FFFF, sp);
    WordOfBlock(v, d, sp, ws, 1, n, sp + 4);
    WordOfBlock(v, d, sp, ws, 2, sp + 12, sp + 8);
    WordOfBlock(v, d, sp, ws, 3 + n, 0, sp + 12 + 4 * n);
    forall k | 0 <= k < n
      ensures WordAt(v, d, sp + 12 + 4 * k, ptrs[k])
    {
      WordOfBlock(v, d, sp, ws, 3 + k, ptrs[k], sp + 12 + 4 * k);
    }
  }

  lemma StackComplete(kmap: seq<KernelRange>, v: View, now: View, now': View, d: nat, sz: nat, sp: nat,
                      argv: seq<seq<byte>>, ptrs: seq<nat>, a: nat)
    requires Pushed(now, d, sz, sp, argv, ptrs) && Guarded(kmap, v, now, d, sz)
    requires WordsOk(Ustack(a, ptrs)) && a + 4 * |Ustack(a, ptrs)| == sp && a % 4 == 0
      && Poked(now, now', d, a, Flat(Ustack(a, ptrs)))
    requires forall b :: a <= b < sp ==> Open(now, d, b)
    ensures StackBuilt(now', d, sz, a, argv, ptrs)
  {
    StaysAboveGuard(kmap, v, now, d, sz, sp, a, sp - a);
    JustPoked(now, now', d, a, Flat(Ustack(a, ptrs)));
    BlockComplete(now', d, a, ptrs);
    forall k | 0 <= k < |ptrs|
      ensures sp <= ptrs[k] && Placed(now', d, sz, argv, ptrs, k)
    {
      assert Placed(now, d, sz, argv, ptrs, k);
      PtrsDescend(now, d, sz, sp, argv, ptrs, k);
      StillThere(now, now', d, ptrs[k], argv[k] + [0], a, Flat(Ustack(a, ptrs)));
    }
  }

  lemma UstackOk(kmap: seq<KernelRange>, v: View, now: View, d: nat, sz: nat, sp: nat, argv: seq<seq<byte>>,
                 ptrs: seq<nat>, a: nat)
    requires Pushed(now, d, sz, sp, argv, ptrs) && Guarded(kmap, v, now, d, sz) && a + (3 + |ptrs| + 1) * 4 == sp
      && |argv| <= MAXARG
    ensures WordsOk(Ustack(a, ptrs)) && a % 4 == 0 && a + 4 * |Ustack(a, ptrs)| == sp
  {
    forall k | 0 <= k < |ptrs|
      ensures ptrs[k] < WORD_LIMIT
    {
      PtrBelowTop(now, d, sz, sp, argv, ptrs, k);
    }
    FoursBelow(sp, a, 3 + |ptrs| + 1);
  }

  lemma FoursBelow(sp: nat, a: nat, n: nat)
    requires a + n * 4 == sp && sp % 4 == 0
    ensures a % 4 == 0
  {
  }

  /** The argument block: it fits exactly if it stays in the stack page. */
  method PushBlock(m: Machine, d: nat, sz: nat, sp: nat, ptrs: seq<nat>, ghost v: View, ghost argv: seq<seq<byte>>,
                   ghost file: seq<byte>, ghost segs: seq<ProgHdr>)
    returns (ok: bool, sp': nat)
    requires m.Valid() && Staged(m.kmap, v, m.Now(), d, sz, file, segs) && Pushed(m.Now(), d, sz, sp, argv, ptrs)
      && |argv| <= MAXARG
    modifies m
    ensures m.Valid() && Added(v, m.Now(), d) && m.refusals == old(m.refusals)
    ensures sp' == sp - 4 * (3 + |argv| + 1) && (ok <==> sz - PGSIZE <= sp')
    ensures ok ==> Staged(m.kmap, v, m.Now(), d, sz, file, segs) && StackBuilt(m.Now(), d, sz, sp', argv, ptrs)
  {
    ghost var w := m.Now();
    sp' := sp - (3 + |ptrs| + 1) * 4;
    UstackOk(m.kmap, v, w, d, sz, sp, argv, ptrs, sp');
    var block := Flat(Ustack(sp', ptrs));
    CopyBelowTop(m.kmap, v, w, d, sz, sp, sp', |block|);
    var r := m.Copyout(d, sp', block);
    AddedPoked(v, w, m.Now(), d);
    ok := r.value == 0;
    if ok {
      BuildingPoked(m.kmap, v, w, m.Now(), d, sz);
      StackComplete(m.kmap, v, w, m.Now(), d, sz, sp, argv, ptrs, sp');
      ImageBelow(w, m.Now(), d, sz - 2 * PGSIZE, sp', block, file, segs);
    }
  }

  lemma PtrBelowTop(now: View, d: nat, sz: nat, sp: nat, args: seq<seq<byte>>, ptrs: seq<nat>, k: nat)
    requires Pushed(now, d, sz, sp, args, ptrs) && k < |ptrs|
    ensures ptrs[k] + |args[k]| + 1 <= sz
    decreases k
  {
    assert Placed(now, d, sz, args, ptrs, k);
    if k > 0 {
      PtrBelowTop(now, d, sz, sp, args, ptrs, k - 1);
    }
  }

  /** The strings and the block: just as StackFate says. */
  method FillStack(m: Machine, d: nat, sz: nat, argv: seq<seq<byte>>, ghost v: View, ghost file: seq<byte>,
                   ghost segs: seq<ProgHdr>)
    returns (r: Outcome<bool>, sp: nat, ptrs: seq<nat>)
    requires m.Valid() && Staged(m.kmap, v, m.Now(), d, sz, file, segs) && forall k :: 0 <= k < |argv| ==>
      |argv[k]| + 1 < KERNBASE
    modifies m
    ensures m.refusals == old(m.refusals) && AsFated(r, StackFate(m.kmap, sz, argv))
    ensures r.Done? ==> m.Valid() && Added(v, m.Now(), d)
    ensures r == Done(true) ==>
      && StackFate(m.kmap, sz, argv) == Fits(sp)
      && Staged(m.kmap, v, m.Now(), d, sz, file, segs) && StackBuilt(m.Now(), d, sz, sp, argv, ptrs)
  {
    r, sp, ptrs := PushStrings(m, d, sz, argv, v, file, segs);
    if r == Done(true) {
      var ok;
      ok, sp := PushBlock(m, d, sz, sp, ptrs, v, argv, file, segs);
      r := Done(ok);
    }
  }

  /**
   * The two stack pages, the argument strings and the argument block:
   * just as StackFate says, if kalloc refuses no frame.
   */
  method BuildStack(m: Machine, d: nat, sz0: nat, argv: seq<seq<byte>>, ghost v: View, ghost file: seq<byte>,
                    ghost segs: seq<ProgHdr>)
    returns (r: Outcome<bool>, sz: nat, sp: nat, ptrs: seq<nat>)
    requires m.Valid() && Building(m.kmap, v, m.Now(), d, sz0) && Imaged(m.Now(), d, Pages(sz0) * PGSIZE, file, segs)
    requires forall k :: 0 <= k < |argv| ==> |argv[k]| + 1 < KERNBASE
    modifies m
    ensures old(m.refusals) <= m.refusals && (old(m.refusals) < m.refusals ==> r == Done(false))
    ensures sz == PgRoundUp(sz0) + 2 * PGSIZE
    ensures old(m.refusals) == m.refusals ==> AsFated(r, if sz < KERNBASE then StackFate(m.kmap, sz, argv) else Refused)
    ensures r.Done? ==> m.Valid() && Added(v, m.Now(), d)
    ensures r == Done(true) ==>
      && StackFate(m.kmap, sz, argv) == Fits(sp)
      && Staged(m.kmap, v, m.Now(), d, sz, file, segs) && StackBuilt(m.Now(), d, sz, sp, argv, ptrs)
  {
    sp, ptrs := 0, [];
    var ok;
    ok, sz := MakeStack(m, d, sz0, v, file, segs);
    if !ok {
      return Done(false), sz, sp, ptrs;
    }
    r, sp, ptrs := FillStack(m, d, sz, argv, v, file, segs);
  }
}
