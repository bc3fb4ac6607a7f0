/** The loading half of exec: what an ELF file says, and the new address space that is filled from it. */
module ExecImage {
  import opened Basics
  import opened Outcomes
  import opened Bytes
  import opened VmLedger
  import opened VmSpace
  import opened VmUser
  import opened VirtualMemory

  const ELF_MAGIC: nat := 0x464C457F
  const ELF_PROG_LOAD: nat := 1
  const ELFHDR: nat := 52
  const PROGHDR: nat := 32

  // ----- What the file says

  /** The fields of a program header. */
  datatype ProgHdr = ProgHdr(kind: nat, off: nat, vaddr: nat, filesz: nat, memsz: nat)

  function ReadProgHdr(b: seq<byte>): (ph: ProgHdr)
    requires |b| == PROGHDR
    ensures ph.off < WORD_LIMIT && ph.vaddr < WORD_LIMIT && ph.filesz < WORD_LIMIT && ph.memsz < WORD_LIMIT
  {
    ProgHdr(GetWord(b, 0), GetWord(b, 1), GetWord(b, 2), GetWord(b, 4), GetWord(b, 5))
  }

  /** Program header i, if the file is long enough for it. */
  function HeaderAt(file: seq<byte>, phoff: nat, i: nat): Option<ProgHdr> {
    var b := ReadAt(file, (phoff + PROGHDR * i) % WORD_LIMIT, PROGHDR);
    if b.Some? && |b.value| == PROGHDR then Some(ReadProgHdr(b.value)) else None
  }

  predicate IsSegment(h: Option<ProgHdr>) {
    h.Some? && h.value.kind == ELF_PROG_LOAD
  }

  /** The segments among the first n headers, in order. */
  function Segments(file: seq<byte>, phoff: nat, n: nat): seq<ProgHdr> {
    if n == 0 then []
    else
      var h := HeaderAt(file, phoff, n - 1);
      Segments(file, phoff, n - 1) + if IsSegment(h) then [h.value] else []
  }

  /** How far the segments among the first n headers reach. */
  function SizeAfter(file: seq<byte>, phoff: nat, n: nat): nat {
    if n == 0 then 0
    else
      var h := HeaderAt(file, phoff, n - 1);
      var sz := SizeAfter(file, phoff, n - 1);
      if IsSegment(h) then Max(sz, h.value.vaddr + h.value.memsz) else sz
  }

  /** A segment that exec accepts behind an image of sz bytes. */
  predicate SegmentOk(file: seq<byte>, ph: ProgHdr, sz: nat) {
    && ph.filesz <= ph.memsz && ph.vaddr + ph.memsz < KERNBASE && ph.vaddr % PGSIZE == 0
    && Max(sz, ph.vaddr + ph.memsz) != 0 && (ph.filesz == 0 || ph.off + ph.filesz <= |file|)
  }

  /** The first n headers are there, and exec accepts the segments among them. */
  predicate HeadersOk(file: seq<byte>, phoff: nat, n: nat) {
    n == 0 || (
      && HeadersOk(file, phoff, n - 1) && HeaderAt(file, phoff, n - 1).Some?
      && (IsSegment(HeaderAt(file, phoff, n - 1)) ==>
            SegmentOk(file, HeaderAt(file, phoff, n - 1).value, SizeAfter(file, phoff, n - 1))))
  }

  /** The headers are taken in order. */
  lemma {:induction false} LaterHeaders(file: seq<byte>, phoff: nat, i: nat, n: nat)
    requires i <= n && HeadersOk(file, phoff, n)
    ensures HeadersOk(file, phoff, i)
    decreases n - i
  {
    if i < n {
      LaterHeaders(file, phoff, i, n - 1);
    }
  }

  predicate IsElf(file: seq<byte>) {
    |file| >= ELFHDR && GetWord(file[..ELFHDR], 0) == ELF_MAGIC
  }

  /** The entry point, the offset of the program headers, and their number. */
  function EntryPoint(file: seq<byte>): nat
    requires IsElf(file)
  {
    GetWord(file[..ELFHDR], 6)
  }

  function PhOff(file: seq<byte>): nat
    requires IsElf(file)
  {
    GetWord(file[..ELFHDR], 7)
  }

  function PhNum(file: seq<byte>): nat
    requires IsElf(file)
  {
    var low: nat, high: nat := file[44], file[45];
    low + 256 * high
  }

  lemma ElfHeader(file: seq<byte>)
    requires |file| < WORD_LIMIT
    ensures var elf := ReadAt(file, 0, ELFHDR);
            && (elf.Some? && |elf.value| == ELFHDR && GetWord(elf.value, 0) == ELF_MAGIC <==> IsElf(file))
            && (IsElf(file) ==> elf.value == file[..ELFHDR])
  {
  }

  predicate Loadable(file: seq<byte>) {
    IsElf(file) && HeadersOk(file, PhOff(file), PhNum(file))
  }

  function ImageSize(file: seq<byte>): nat
    requires IsElf(file)
  {
    SizeAfter(file, PhOff(file), PhNum(file))
  }

  function SegmentsOf(file: seq<byte>): seq<ProgHdr>
    requires IsElf(file)
  {
    Segments(file, PhOff(file), PhNum(file))
  }

  /** The byte at address a of the image: what the last segment with file contents there says, or zero. */
  function ImageByte(file: seq<byte>, segs: seq<ProgHdr>, a: nat): byte {
    if segs == [] then 0
    else
      var s := segs[|segs| - 1];
      if s.vaddr <= a < s.vaddr + s.filesz && s.off + (a - s.vaddr) < |file| then file[s.off + (a - s.vaddr)]
      else ImageByte(file, segs[..|segs| - 1], a)
  }

  /** No segment reaches beyond sz. */
  predicate Within(segs: seq<ProgHdr>, sz: nat) {
    forall i :: 0 <= i < |segs| ==> segs[i].vaddr + segs[i].filesz <= sz
  }

  lemma {:induction false} BeyondIsZero(file: seq<byte>, segs: seq<ProgHdr>, sz: nat, a: nat)
    requires Within(segs, sz) && sz <= a
    ensures ImageByte(file, segs, a) == 0
  {
    if segs != [] {
      BeyondIsZero(file, segs[..|segs| - 1], sz, a);
    }
  }

  /** When no two segments overlap, each of them is in the image whole, and what is above its file contents is zero. */
  lemma {:induction false} SegmentInImage(file: seq<byte>, segs: seq<ProgHdr>, i: nat, a: nat)
    requires i < |segs| && segs[i].vaddr <= a < segs[i].vaddr + segs[i].memsz && segs[i].off + segs[i].filesz <= |file|
    requires forall j, k :: 0 <= j < |segs| && 0 <= k < |segs| && j != k ==> Disjoint(segs[j], segs[k])
    requires forall j :: 0 <= j < |segs| ==> segs[j].filesz <= segs[j].memsz
    ensures ImageByte(file, segs, a) ==
            if a < segs[i].vaddr + segs[i].filesz then file[segs[i].off + (a - segs[i].vaddr)] else 0
    decreases |segs|
  {
    var last := |segs| - 1;
    assert i != last ==> Disjoint(segs[i], segs[last]);
    if i != last {
      SegmentInImage(file, segs[..last], i, a);
    } else if a >= segs[i].vaddr + segs[i].filesz {
      NoneThere(file, segs[..last], segs[i], a);
    }
  }

  predicate Disjoint(s: ProgHdr, t: ProgHdr) {
    s.vaddr + s.memsz <= t.vaddr || t.vaddr + t.memsz <= s.vaddr
  }

  lemma {:induction false} NoneThere(file: seq<byte>, segs: seq<ProgHdr>, s: ProgHdr, a: nat)
    requires s.vaddr <= a < s.vaddr + s.memsz
    requires forall j :: 0 <= j < |segs| ==> Disjoint(segs[j], s) && segs[j].filesz <= segs[j].memsz
    ensures ImageByte(file, segs, a) == 0
    decreases |segs|
  {
    if segs != [] {
      assert Disjoint(segs[|segs| - 1], s);
      NoneThere(file, segs[..|segs| - 1], s, a);
    }
  }

  // ----- A space under construction

  /** Space d is new since v, has exactly the user pages of [0, sz), and its kernel part is what setupkvm made. */
  ghost predicate Building(kmap: seq<KernelRange>, v: View, now: View, d: nat, sz: nat) {
    && Ledger(v) && Ledger(now) && Added(v, now, d) && Sized(now.spaces[d], sz) && sz <= KERNBASE
    && KernelClosed(now.spaces[d]) && KernelTables(kmap, |kmap|, now.spaces[d])
  }

  /** The n addresses from 0 on hold the image. */
  ghost predicate Imaged(now: View, d: nat, n: nat, file: seq<byte>, segs: seq<ProgHdr>) {
    forall a: nat {:trigger Shows(now, d, a, ImageByte(file, segs, a))} :: a < n ==>
      Shows(now, d, a, ImageByte(file, segs, a))
  }

  /** User address a is mapped, and there is byte b. */
  ghost predicate Shows(now: View, d: nat, a: nat, b: byte) {
    Mapt(now, d, a) && ByteAt(now, d, a) == b
  }

  lemma BuildingGrows(kmap: seq<KernelRange>, v: View, w: View, now: View, d: nat, sz: nat, newsz: nat)
    requires Building(kmap, v, w, d, sz) && Ledger(now) && Extended(w, now, d, Pages(sz), Pages(newsz))
      && now.held == w.held
    requires Sized(now.spaces[d], newsz) && newsz <= KERNBASE
    ensures Building(kmap, v, now, d, newsz)
  {
    AddedGrows(v, w, now, d);
    PagesMonotone(newsz, KERNBASE);
    forall x: nat | KERNPAGE <= x < NPAGES
      ensures !UserBit(now.spaces[d].pte[x])
    {
      assert now.spaces[d].pte[x] == w.spaces[d].pte[x];
    }
  }

  lemma BuildingPoked(kmap: seq<KernelRange>, v: View, w: View, now: View, d: nat, sz: nat)
    requires Building(kmap, v, w, d, sz) && Ledger(now) && OnlyPagesOf(w, now, d)
    ensures Building(kmap, v, now, d, sz)
  {
    AddedPoked(v, w, now, d);
  }

  lemma AddressPage(a: nat, sz: nat)
    requires a < sz <= KERNBASE
    ensures a / PGSIZE < Pages(sz) && a / PGSIZE < KERNPAGE && a % WORD_LIMIT == a
  {
  }

  /** Every address below sz is mapped. */
  lemma BuildingMapped(kmap: seq<KernelRange>, v: View, now: View, d: nat, sz: nat, a: nat)
    requires Building(kmap, v, now, d, sz) && a < sz
    ensures Mapt(now, d, a) && HasTable(now, d, a)
  {
    AddressPage(a, sz);
    var x := a / PGSIZE;
    assert now.role[Frame(now.spaces[d].pte[x])] == User(d, x);
    assert now.spaces[d].pte[x] == Walked(now.mem, now.spaces[d].pde, x);
  }

  /** An address whose page keeps its entry keeps its byte, too. */
  lemma ByteStays(w: View, now: View, d: nat, a: nat)
    requires Roles(w) && Grown(w, now, d) && Mapt(w, d, a)
    requires Present(now.spaces[d].pte[a / PGSIZE])
      && Frame(now.spaces[d].pte[a / PGSIZE]) == Frame(w.spaces[d].pte[a / PGSIZE])
    ensures Mapt(now, d, a) && ByteAt(now, d, a) == ByteAt(w, d, a)
  {
    var f := Frame(w.spaces[d].pte[a / PGSIZE]);
    assert w.role[f] == User(d, a / PGSIZE);
    assert now.mem[f] == w.mem[f];
  }

  lemma PageOfAddress(a: nat, n: nat)
    ensures a < n * PGSIZE <==> a / PGSIZE < n
  {
  }

  /** Growing adds zeros, which is what the image has beyond its segments. */
  lemma ImageGrows(w: View, now: View, d: nat, sz: nat, newsz: nat, file: seq<byte>, segs: seq<ProgHdr>)
    requires Roles(w) && Extended(w, now, d, Pages(sz), Pages(newsz)) && sz <= newsz <= KERNBASE && Within(segs, sz)
    requires Imaged(w, d, Pages(sz) * PGSIZE, file, segs)
    ensures Imaged(now, d, Pages(newsz) * PGSIZE, file, segs)
  {
    PagesMonotone(newsz, KERNBASE);
    PagesMonotone(sz, newsz);
    forall a: nat | a < Pages(newsz) * PGSIZE
      ensures Shows(now, d, a, ImageByte(file, segs, a))
    {
      PageOfAddress(a, Pages(newsz));
      PageOfAddress(a, Pages(sz));
      PageOfAddress(a, KERNPAGE);
      var e := now.spaces[d].pte[a / PGSIZE];
      if a < Pages(sz) * PGSIZE {
        assert Shows(w, d, a, ImageByte(file, segs, a));
        assert e == w.spaces[d].pte[a / PGSIZE];
        ByteStays(w, now, d, a);
      } else {
        assert FreshPage(w, now, e);
        NotAbove(sz);
        BeyondIsZero(file, segs, sz, a);
      }
    }
  }

  lemma NotAbove(sz: nat)
    ensures sz <= Pages(sz) * PGSIZE
  {
  }

  /** Growing above the image leaves it alone. */
  lemma ImageStays(w: View, now: View, d: nat, n: nat, lo: nat, hi: nat, file: seq<byte>, segs: seq<ProgHdr>)
    requires Roles(w) && Extended(w, now, d, lo, hi) && n == lo * PGSIZE && Imaged(w, d, n, file, segs)
    ensures Imaged(now, d, n, file, segs)
  {
    forall a: nat | a < n
      ensures Shows(now, d, a, ImageByte(file, segs, a))
    {
      PageOfAddress(a, lo);
      assert Shows(w, d, a, ImageByte(file, segs, a));
      assert now.spaces[d].pte[a / PGSIZE] == w.spaces[d].pte[a / PGSIZE];
      ByteStays(w, now, d, a);
    }
  }

  /** Writing above the image leaves it alone. */
  lemma ImageBelow(w: View, now: View, d: nat, n: nat, va: nat, data: seq<byte>, file: seq<byte>, segs: seq<ProgHdr>)
    requires Imaged(w, d, n, file, segs) && Poked(w, now, d, va, data) && n <= va
    ensures Imaged(now, d, n, file, segs)
  {
    forall a: nat | a < n
      ensures Shows(now, d, a, ImageByte(file, segs, a))
    {
      assert Shows(w, d, a, ImageByte(file, segs, a));
      MaptKept(w, now, d, a);
    }
  }

  /** loaduvm adds one segment to the image. */
  lemma ImageLoaded(w: View, now: View, d: nat, n: nat, file: seq<byte>, segs: seq<ProgHdr>, ph: ProgHdr,
                    more: seq<ProgHdr>)
    requires Imaged(w, d, n, file, segs) && Poked(w, now, d, ph.vaddr, From(file, ph.off, ph.filesz))
      && more == segs + [ph]
    requires ph.filesz == 0 || ph.off + ph.filesz <= |file|
    ensures Imaged(now, d, n, file, more)
  {
    assert more[..|more| - 1] == segs;
    forall a: nat | a < n
      ensures Shows(now, d, a, ImageByte(file, more, a))
    {
      assert Shows(w, d, a, ImageByte(file, segs, a));
      MaptKept(w, now, d, a);
    }
  }

  // ----- Loading

  /** The step succeeds exactly if it should and kalloc refuses no frame on the way. */
  predicate Settles(ok: bool, good: bool, before: nat, after: nat) {
    before <= after && ok == (good && before == after)
  }

  /** The image grows by zeros, or keeps its size if it is that large already. */
  method GrowTo(m: Machine, d: nat, sz: nat, newsz: nat, ghost v: View) returns (ok: bool, sz': nat)
    requires m.Valid() && Building(m.kmap, v, m.Now(), d, sz)
    modifies m
    ensures m.Valid() && Added(v, m.Now(), d)
    ensures Settles(ok, newsz < KERNBASE && Max(sz, newsz) != 0, old(m.refusals), m.refusals)
    ensures ok ==> Building(m.kmap, v, m.Now(), d, sz') && sz' == Max(sz, newsz) != 0 && newsz < KERNBASE
    ensures ok && newsz < sz ==> m.Now() == old(m.Now())
    ensures ok && sz <= newsz ==> Extended(old(m.Now()), m.Now(), d, Pages(sz), Pages(newsz))
  {
    ghost var w := m.Now();
    sz' := m.Allocuvm(d, sz, newsz);
    AddedGrows(v, w, m.Now(), d);
    ok := sz' != 0;
    if ok && sz <= newsz {
      BuildingGrows(m.kmap, v, w, m.Now(), d, sz, newsz);
    }
  }

  /** What the loading loop has built from the first n headers. */
  ghost predicate LoadedUpTo(kmap: seq<KernelRange>, v: View, now: View, d: nat, file: seq<byte>, phoff: nat, n: nat,
                             sz: nat) {
    && Building(kmap, v, now, d, sz) && HeadersOk(file, phoff, n) && sz == SizeAfter(file, phoff, n)
    && Within(Segments(file, phoff, n), sz) && Imaged(now, d, Pages(sz) * PGSIZE, file, Segments(file, phoff, n))
  }

  /**
   * One segment: the image of the headers before it becomes the image with the segment, its tail up to memsz zero.
   * Whatever the header says, loaduvm cannot halt.
   */
  method LoadSegment(m: Machine, d: nat, file: seq<byte>, ph: ProgHdr, sz: nat, ghost v: View, ghost segs: seq<ProgHdr>)
    returns (ok: bool, sz': nat)
    requires m.Valid() && Building(m.kmap, v, m.Now(), d, sz) && |file| < WORD_LIMIT
    requires Within(segs, sz) && Imaged(m.Now(), d, Pages(sz) * PGSIZE, file, segs)
    requires ph.off < WORD_LIMIT && ph.vaddr < WORD_LIMIT && ph.filesz < WORD_LIMIT && ph.memsz < WORD_LIMIT
    modifies m
    ensures m.Valid() && Added(v, m.Now(), d)
    ensures Settles(ok, SegmentOk(file, ph, sz), old(m.refusals), m.refusals)
    ensures ok ==> sz' == Max(sz, ph.vaddr + ph.memsz) && Building(m.kmap, v, m.Now(), d, sz')
    ensures ok ==> Within(segs + [ph], sz') && Imaged(m.Now(), d, Pages(sz') * PGSIZE, file, segs + [ph])
  {
    if ph.memsz < ph.filesz || (ph.vaddr + ph.memsz) % WORD_LIMIT < ph.vaddr {
      return false, sz;
    }
    ok, sz' := GrowImage(m, d, file, sz, ph.vaddr + ph.memsz, v, segs);
    if !ok || ph.vaddr % PGSIZE != 0 {
      return false, sz';
    }
    ok := FillSegment(m, d, file, ph, sz', v, segs);
  }

  /** The image with zeros up to newsz. */
  method GrowImage(m: Machine, d: nat, ghost file: seq<byte>, sz: nat, newsz: nat, ghost v: View,
                   ghost segs: seq<ProgHdr>)
    returns (ok: bool, sz': nat)
    requires m.Valid() && Building(m.kmap, v, m.Now(), d, sz) && Within(segs, sz)
      && Imaged(m.Now(), d, Pages(sz) * PGSIZE, file, segs)
    modifies m
    ensures m.Valid() && Added(v, m.Now(), d)
    ensures Settles(ok, newsz < KERNBASE && Max(sz, newsz) != 0, old(m.refusals), m.refusals)
    ensures ok ==>
      sz' == Max(sz, newsz) && Building(m.kmap, v, m.Now(), d, sz')
        && Imaged(m.Now(), d, Pages(sz') * PGSIZE, file, segs)
  {
    ghost var w := m.Now();
    ok, sz' := GrowTo(m, d, sz, newsz, v);
    if ok && sz <= newsz {
      ImageGrows(w, m.Now(), d, sz, newsz, file, segs);
    }
  }

  /** Copies one segment's bytes from the file to their addresses. */
  method FillSegment(m: Machine, d: nat, file: seq<byte>, ph: ProgHdr, sz: nat, ghost v: View, ghost segs: seq<ProgHdr>)
    returns (ok: bool)
    requires m.Valid() && Building(m.kmap, v, m.Now(), d, sz) && |file| < WORD_LIMIT && ph.off < WORD_LIMIT
    requires Imaged(m.Now(), d, Pages(sz) * PGSIZE, file, segs)
    requires ph.filesz <= ph.memsz && ph.vaddr + ph.memsz <= sz && ph.vaddr % PGSIZE == 0
    modifies m
    ensures m.Valid() && Building(m.kmap, v, m.Now(), d, sz) && m.refusals == old(m.refusals)
    ensures ok <==> ph.filesz == 0 || ph.off + ph.filesz <= |file|
    ensures ok ==> Imaged(m.Now(), d, Pages(sz) * PGSIZE, file, segs + [ph])
  {
    ghost var w := m.Now();
    forall a | ph.vaddr <= a < ph.vaddr + ph.filesz
      ensures Mapt(w, d, a)
    {
      BuildingMapped(m.kmap, v, w, d, sz, a);
    }
    var r := m.Loaduvm(d, ph.vaddr, file, ph.off, ph.filesz);
    BuildingPoked(m.kmap, v, w, m.Now(), d, sz);
    ok := r.value == 0;
    if ok {
      ImageLoaded(w, m.Now(), d, Pages(sz) * PGSIZE, file, segs, ph, segs + [ph]);
    }
  }

  /** The loading loop of exec. */
  method LoadProgram(m: Machine, d: nat, file: seq<byte>, phoff: nat, phnum: nat, ghost v: View)
    returns (ok: bool, sz: nat)
    requires m.Valid() && Building(m.kmap, v, m.Now(), d, 0) && |file| < WORD_LIMIT
    modifies m
    ensures m.Valid() && Added(v, m.Now(), d)
    ensures Settles(ok, HeadersOk(file, phoff, phnum), old(m.refusals), m.refusals)
    ensures ok ==> LoadedUpTo(m.kmap, v, m.Now(), d, file, phoff, phnum, sz)
  {
    sz := 0;
    var i := 0;
    while i < phnum
      invariant i <= phnum && m.Valid() && LoadedUpTo(m.kmap, v, m.Now(), d, file, phoff, i, sz)
        && m.refusals == old(m.refusals)
    {
      var next := i + 1;
      ok, sz := LoadHeader(m, d, file, phoff, i, sz, v, next);
      if !ok {
        if HeadersOk(file, phoff, phnum) {
          LaterHeaders(file, phoff, next, phnum);
        }
        return;
      }
      i := next;
    }
    return true, sz;
  }

  /** readi of one program header; None if the file is not long enough. */
  method ReadHeader(file: seq<byte>, phoff: nat, i: nat) returns (h: Option<ProgHdr>)
    ensures h == HeaderAt(file, phoff, i)
  {
    var b := ReadAt(file, (phoff + PROGHDR * i) % WORD_LIMIT, PROGHDR);
    if b.None? || |b.value| != PROGHDR {
      return None;
    }
    return Some(ReadProgHdr(b.value));
  }

  /** One round of the loading loop. */
  method LoadHeader(m: Machine, d: nat, file: seq<byte>, phoff: nat, i: nat, sz: nat, ghost v: View, ghost next: nat)
    returns (ok: bool, sz': nat)
    requires m.Valid() && LoadedUpTo(m.kmap, v, m.Now(), d, file, phoff, i, sz) && |file| < WORD_LIMIT && next == i + 1
    modifies m
    ensures m.Valid() && Added(v, m.Now(), d)
    ensures Settles(ok, HeadersOk(file, phoff, next), old(m.refusals), m.refusals)
    ensures ok ==> LoadedUpTo(m.kmap, v, m.Now(), d, file, phoff, next, sz')
  {
    ghost var good := HeadersOk(file, phoff, next);
    var h := ReadHeader(file, phoff, i);
    HeaderCounts(file, phoff, i, next, h, sz, good);
    if h.None? {
      return false, sz;
    }
    var ph := h.value;
    if ph.kind != ELF_PROG_LOAD {
      OneHeader(file, phoff, i, next, ph);
      return true, sz;
    }
    ghost var segs := Segments(file, phoff, i);
    ok, sz' := LoadSegment(m, d, file, ph, sz, v, segs);
    if ok {
      HeaderLoaded(m.kmap, v, m.Now(), d, file, phoff, i, next, sz, sz', ph, segs, segs + [ph]);
    }
  }

  lemma HeaderCounts(file: seq<byte>, phoff: nat, i: nat, next: nat, h: Option<ProgHdr>, sz: nat, good: bool)
    requires next == i + 1 && h == HeaderAt(file, phoff, i) && good == HeadersOk(file, phoff, next)
    requires HeadersOk(file, phoff, i) && sz == SizeAfter(file, phoff, i)
    ensures good <==> h.Some? && (h.value.kind == ELF_PROG_LOAD ==> SegmentOk(file, h.value, sz))
    ensures h.Some? ==>
      h.value.off < WORD_LIMIT && h.value.vaddr < WORD_LIMIT && h.value.filesz < WORD_LIMIT
        && h.value.memsz < WORD_LIMIT
  {
  }

  lemma HeaderLoaded(kmap: seq<KernelRange>, v: View, now: View, d: nat, file: seq<byte>, phoff: nat, i: nat, next: nat,
                     sz: nat, sz': nat, ph: ProgHdr, segs: seq<ProgHdr>, more: seq<ProgHdr>)
    requires next == i + 1 && HeaderAt(file, phoff, i) == Some(ph) && ph.kind == ELF_PROG_LOAD
    requires HeadersOk(file, phoff, i) && sz == SizeAfter(file, phoff, i) && segs == Segments(file, phoff, i)
    requires SegmentOk(file, ph, sz) && sz' == Max(sz, ph.vaddr + ph.memsz) && more == segs + [ph]
    requires Building(kmap, v, now, d, sz') && Within(more, sz') && Imaged(now, d, Pages(sz') * PGSIZE, file, more)
    ensures LoadedUpTo(kmap, v, now, d, file, phoff, next, sz')
  {
    OneHeader(file, phoff, i, next, ph);
  }

  lemma OneHeader(file: seq<byte>, phoff: nat, i: nat, next: nat, ph: ProgHdr)
    requires next == i + 1 && HeaderAt(file, phoff, i) == Some(ph)
    ensures var sz := SizeAfter(file, phoff, i);
            if ph.kind == ELF_PROG_LOAD then
              && Segments(file, phoff, next) == Segments(file, phoff, i) + [ph]
              && SizeAfter(file, phoff, next) == Max(sz, ph.vaddr + ph.memsz)
              && (HeadersOk(file, phoff, next) <==> HeadersOk(file, phoff, i) && SegmentOk(file, ph, sz))
            else
              && Segments(file, phoff, next) == Segments(file, phoff, i) && SizeAfter(file, phoff, next) == sz
              && (HeadersOk(file, phoff, next) <==> HeadersOk(file, phoff, i))
  {
  }

  /** Space d holds the image of the file. */
  ghost predicate ImageBuilt(kmap: seq<KernelRange>, v: View, now: View, d: nat, file: seq<byte>) {
    && Loadable(file) && Building(kmap, v, now, d, ImageSize(file))
    && Imaged(now, d, Pages(ImageSize(file)) * PGSIZE, file, SegmentsOf(file))
  }

  /** The space the image is built in; 0 exactly if a frame was refused. */
  method NewSpace(m: Machine, ghost v: View) returns (d: nat)
    requires m.Valid() && m.Now() == v
    modifies m
    ensures m.Valid() && (d == 0 ==> Restored(v, m.Now()))
    ensures m.refusals == old(m.refusals) + if d == 0 then 1 else 0
    ensures d != 0 ==> Added(v, m.Now(), d) && Building(m.kmap, v, m.Now(), d, 0)
  {
    d := m.Setupkvm();
    if d != 0 {
      KernelOnlyClosed(m.kmap, m.spaces[d]);
    }
  }

  /** The header checks, setupkvm and the loading loop; d is 0 if no directory was allocated. */
  method LoadImage(m: Machine, file: seq<byte>, ghost v: View) returns (ok: bool, d: nat, sz: nat, entry: nat)
    requires m.Valid() && m.Now() == v && |file| < WORD_LIMIT
    modifies m
    ensures m.Valid() && (d == 0 ==> Restored(v, m.Now())) && (d != 0 ==> Added(v, m.Now(), d))
    ensures Settles(ok, Loadable(file), old(m.refusals), m.refusals)
    ensures ok ==>
      d != 0 && ImageBuilt(m.kmap, v, m.Now(), d, file) && sz == ImageSize(file) && entry == EntryPoint(file)
  {
    ok, d, sz, entry := false, 0, 0, 0;
    var isElf, phoff: nat, phnum: nat := false, 0, 0;
    isElf, entry, phoff, phnum := ReadElf(file);
    if !isElf {
      return;
    }
    d := NewSpace(m, v);
    if d == 0 {
      return;
    }
    ok, sz := LoadProgram(m, d, file, phoff, phnum, v);
    if ok {
      AllLoaded(m.kmap, v, m.Now(), d, file, phoff, phnum, sz);
    }
  }

  /** readi and the test of the ELF header, and what exec uses of it. */
  method ReadElf(file: seq<byte>) returns (isElf: bool, entry: nat, phoff: nat, phnum: nat)
    requires |file| < WORD_LIMIT
    ensures isElf <==> IsElf(file)
    ensures isElf ==> entry == EntryPoint(file) && phoff == PhOff(file) && phnum == PhNum(file)
  {
    ElfHeader(file);
    var elf := ReadAt(file, 0, ELFHDR);
    if elf.None? || |elf.value| != ELFHDR || GetWord(elf.value, 0) != ELF_MAGIC {
      return false, 0, 0, 0;
    }
    var low: nat, high: nat := elf.value[44], elf.value[45];
    return true, GetWord(elf.value, 6), GetWord(elf.value, 7), low + 256 * high;
  }

  lemma AllLoaded(kmap: seq<KernelRange>, v: View, now: View, d: nat, file: seq<byte>, phoff: nat, phnum: nat, sz: nat)
    requires IsElf(file) && phoff == PhOff(file) && phnum == PhNum(file)
    requires LoadedUpTo(kmap, v, now, d, file, phoff, phnum, sz)
    ensures ImageBuilt(kmap, v, now, d, file) && sz == ImageSize(file)
  {
  }
}
