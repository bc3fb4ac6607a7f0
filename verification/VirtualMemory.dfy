/**
 * vm.c over physical memory: two-level page tables in frames that kalloc hands out and kfree takes back.
 * A page table or directory is known by its frame number; frame 0 stands for the null pointer.
 */
module VirtualMemory {
  import opened Outcomes
  import opened Bytes
  import opened VmLedger
  import opened VmSpace
  import opened VmUser

  class Machine {
    const kmap: seq<KernelRange>
    var mem: seq<Page>
    var free: set<nat>
    ghost var held: set<nat>
    ghost var spaces: map<nat, Space>
    ghost var role: map<nat, Role>
    ghost var refusals: nat         // how often kalloc has failed

    ghost function Now(): View
      reads this
    {
      View(mem, free, held, spaces, role)
    }

    ghost predicate Valid()
      reads this
    {
      Ledger(Now()) && KmapOk(kmap)
    }

    /** A machine with n frames, of which the given ones are free. */
    constructor (kmap: seq<KernelRange>, n: nat, frames: set<nat>)
      requires KmapOk(kmap) && n <= NPAGES && forall f :: f in frames ==> 0 < f < n
      ensures Valid() && this.kmap == kmap && |mem| == n && free == frames && spaces == map[] && held == {}
        && role == map[]
    {
      this.kmap := kmap;
      mem := seq(n, i => ZeroPage());
      free := frames;
      held, spaces, role, refusals := {}, map[], map[], 0;
    }

    // ----- The page allocator

    /**
     * A free frame with arbitrary contents; it may fail even when there is one, and each failure counts as a refusal.
     */
    method Kalloc() returns (f: nat)
      requires Valid()
      modifies this`free, this`held, this`refusals
      ensures Valid() && Pool(Now()) == old(Pool(Now()))
      ensures refusals == old(refusals) + if f == 0 then 1 else 0
      ensures f == 0 ==> Now() == old(Now())
      ensures f != 0 ==> f in old(free) && free == old(free) - {f} && held == old(held) + {f}
    {
      var fails: bool := *;
      if fails || free == {} {
        refusals := refusals + 1;
        return 0;
      }
      f :| f in free;
      free := free - {f};
      held := held + {f};
      LedgerAllocates(old(Now()), f);
    }

    /** What kfree does to memory: the frame is overwritten and becomes free. */
    method Release(f: nat)
      requires f < |mem|
      modifies this`mem, this`free
      ensures free == old(free) + {f} && |mem| == |old(mem)| && mem == old(mem)[f := mem[f]]
    {
      var junk: Page := *;
      mem := mem[f := junk];
      free := free + {f};
    }

    /** kfree of a frame that nothing points to. */
    method Kfree(f: nat)
      requires Valid() && f in held
      modifies this`mem, this`free, this`held
      ensures Valid() && Pool(Now()) == old(Pool(Now()))
      ensures free == old(free) + {f} && held == old(held) - {f}
      ensures |mem| == |old(mem)| && mem == old(mem)[f := mem[f]]
    {
      Release(f);
      LedgerKeepsPage(old(Now()), f, mem[f]);
      held := held - {f};
      LedgerFrees(old(Now()).(mem := mem), f);
    }

    /** memset or memmove into a frame that is not a page table. */
    method SetPage(f: nat, page: Page)
      requires Valid() && f < |mem| && (f in role ==> role[f].User?)
      modifies this`mem
      ensures Valid() && mem == old(mem)[f := page]
    {
      LedgerKeepsPage(Now(), f, page);
      mem := mem[f := page];
    }

    // ----- Page tables

    /** walkpgdir without alloc: the page table of va, or 0. */
    method PageTable(pgdir: nat, va: nat) returns (pgtab: nat)
      requires Valid() && pgdir in spaces && va < WORD_LIMIT
      ensures pgtab == 0 <==> !Present(spaces[pgdir].pde[va / PGSIZE / NPTENTRIES])
      ensures pgtab != 0 ==> Frame(spaces[pgdir].pde[va / PGSIZE / NPTENTRIES]) == pgtab < |mem|
    {
      var i := va / PGSIZE / NPTENTRIES;
      var pde := GetWord(mem[pgdir], i);
      assert pde == spaces[pgdir].pde[i];
      return if Present(pde) then Frame(pde) else 0;
    }

    /** walkpgdir: as above, but a missing page table is added if alloc is set and kalloc has a frame for it. */
    method Walkpgdir(pgdir: nat, va: nat, alloc: bool) returns (pgtab: nat)
      requires Valid() && pgdir in spaces && va < WORD_LIMIT
      modifies this
      ensures refusals == old(refusals) + if alloc && pgtab == 0 then 1 else 0
      ensures Valid() && Grown(old(Now()), Now(), pgdir) && spaces[pgdir].pte == old(spaces[pgdir].pte)
        && held == old(held)
      ensures pgtab == 0 <==> !Present(spaces[pgdir].pde[va / PGSIZE / NPTENTRIES])
      ensures pgtab != 0 ==> Frame(spaces[pgdir].pde[va / PGSIZE / NPTENTRIES]) == pgtab < |mem|
      ensures !alloc ==> Now() == old(Now())
      ensures TablesAdded(old(spaces[pgdir]), spaces[pgdir], va / PGSIZE, if pgtab != 0 then 1 else 0)
    {
      pgtab := PageTable(pgdir, va);
      if pgtab != 0 || !alloc {
        return;
      }
      pgtab := Kalloc();
      if pgtab == 0 {
        return 0;
      }
      AddTable(pgdir, va / PGSIZE / NPTENTRIES, pgtab);
    }

    /** A frame in hand becomes an empty page table of the directory. */
    method AddTable(pgdir: nat, i: nat, pgtab: nat)
      requires Valid() && pgdir in spaces && i < NPDENTRIES && !Present(spaces[pgdir].pde[i]) && pgtab in held
      modifies this`mem, this`free, this`held, this`spaces, this`role
      ensures Valid() && Grown(old(Now()), Now(), pgdir) && spaces[pgdir].pte == old(spaces[pgdir].pte)
      ensures held == old(held) - {pgtab} && free == old(free)
      ensures Present(spaces[pgdir].pde[i]) && Frame(spaces[pgdir].pde[i]) == pgtab < |mem|
      ensures Flags(spaces[pgdir].pde[i]) == 1 + PTE_W + PTE_U
      ensures spaces[pgdir].pde == old(spaces[pgdir]).pde[i := spaces[pgdir].pde[i]]
    {
      assert Present(7);
      LedgerTakesTable(Now(), pgdir, i, pgtab);
      ghost var w := WithTable(Now(), pgdir, i, pgtab);
      mem := mem[pgtab := ZeroPage()];
      mem := mem[pgdir := PutWord(mem[pgdir], i, Entry(pgtab, 7))];
      held, spaces, role := w.held, w.spaces, w.role;
      assert Now() == w;
    }

    /** One round of mappages, for page x and frame f; false when no page table could be allocated. */
    method MapPage(pgdir: nat, a: nat, pa: nat, perm: nat, ghost x: nat, ghost f: nat) returns (r: Outcome<bool>)
      requires Valid() && pgdir in spaces && a < WORD_LIMIT && a == x * PGSIZE && pa < WORD_LIMIT && pa == f * PGSIZE
        && perm < PGSIZE
      requires x < KERNPAGE ==> f in held
      modifies this
      ensures r.Done? ==> refusals == old(refusals) + if r.value then 0 else 1
      ensures r.Done? ==> Valid()
      ensures r.Panic? <==> Present(old(spaces[pgdir]).pte[x])
      ensures r.Done? ==> Mapped(old(Now()), Now(), pgdir, x, if r.value then 1 else 0, f, perm)
    {
      PageNumber(x);
      PageNumber(f);
      OneFrame(x, 0, f);
      var pgtab := Walkpgdir(pgdir, a, true);
      if pgtab == 0 {
        assert spaces[pgdir].pte[x] == Walked(mem, spaces[pgdir].pde, x) == 0;
        return Done(false);
      }
      ghost var mid := Now();
      var pte := GetWord(mem[pgtab], a / PGSIZE % NPTENTRIES);
      assert spaces[pgdir].pte[x] == Walked(mem, spaces[pgdir].pde, x);
      if Present(pte) {
        return Panic;
      }
      SetPte(pgdir, pgtab, a / PGSIZE, pa / PGSIZE, perm);
      OneFrame(x, 1, f);
      GrownTwice(old(Now()), mid, Now(), pgdir);
      return Done(true);
    }

    /** Fills in an entry that was not present. */
    method SetPte(pgdir: nat, pgtab: nat, x: nat, f: nat, perm: nat)
      requires Valid() && pgdir in spaces && x < NPAGES && f < NPAGES && perm < PGSIZE
      requires Present(spaces[pgdir].pde[x / NPTENTRIES]) && Frame(spaces[pgdir].pde[x / NPTENTRIES]) == pgtab < |mem|
      requires !Present(spaces[pgdir].pte[x]) && (x < KERNPAGE ==> f in held)
      modifies this`mem, this`free, this`held, this`spaces, this`role
      ensures Valid() && Mapped(old(Now()), Now(), pgdir, x, 1, f, perm)
    {
      ghost var w := PteSet(Now(), pgdir, x, f, perm);
      mem := mem[pgtab := PutWord(mem[pgtab], x % NPTENTRIES, Entry(f, perm))];
      held, spaces, role := w.held, w.spaces, w.role;
      assert Now() == w;
    }

    /** What writing the entry makes of the ledger. */
    lemma PteSet(v: View, pgdir: nat, x: nat, f: nat, perm: nat) returns (w: View)
      requires Ledger(v) && pgdir in v.spaces && x < NPAGES && f < NPAGES && perm < PGSIZE
      requires Present(v.spaces[pgdir].pde[x / NPTENTRIES]) && Frame(v.spaces[pgdir].pde[x / NPTENTRIES]) < |v.mem|
      requires !Present(v.spaces[pgdir].pte[x]) && (x < KERNPAGE ==> f in v.held)
      ensures Ledger(w) && Mapped(v, w, pgdir, x, 1, f, perm)
      ensures w == WithPte(v, pgdir, x, Entry(f, perm)).(held := w.held, role := w.role)
    {
      w := WithPte(v, pgdir, x, Entry(f, perm));
      if x < KERNPAGE {
        LedgerMapsUser(v, pgdir, x, f, perm);
        w := w.(held := v.held - {f}, role := v.role[f := User(pgdir, x)]);
      } else {
        LedgerMapsKernel(v, pgdir, x, Entry(f, perm));
      }
      PteMapped(v, w, pgdir, x, f, perm);
    }

    /**
     * mappages: maps the pages of [va, va + size) to the frames from pa on. It halts on a page that is mapped already,
     * and gives up with -1 when it cannot allocate a page table; the
     * pages before that one, none of which was mapped, stay mapped.
     */
    method Mappages(pgdir: nat, va: nat, size: nat, pa: nat, perm: nat) returns (r: Outcome<int>, ghost n: nat)
      requires Valid() && pgdir in spaces && 0 < size && va + size <= WORD_LIMIT && perm < PGSIZE
      requires pa % PGSIZE == 0 && pa + PGSIZE * ((va + size - 1) / PGSIZE - va / PGSIZE + 1) <= WORD_LIMIT
      requires UserFrames(va / PGSIZE, (va + size - 1) / PGSIZE - va / PGSIZE + 1, pa / PGSIZE) <= held
      modifies this
      ensures r.Done? ==> refusals == old(refusals) + if r.value == 0 then 0 else 1
      ensures r.Done? ==> Valid()
      ensures r.Panic? ==> !Unmapped(old(spaces[pgdir]).pte, va / PGSIZE, (va + size - 1) / PGSIZE - va / PGSIZE + 1)
      ensures r.Done? ==>
        && n <= (va + size - 1) / PGSIZE - va / PGSIZE + 1
        && Mapped(old(Now()), Now(), pgdir, va / PGSIZE, n, pa / PGSIZE, perm)
        && r.value == (if n == (va + size - 1) / PGSIZE - va / PGSIZE + 1 then 0 else -1)
        && Unmapped(old(spaces[pgdir]).pte, va / PGSIZE, n)
        && Granted(spaces[pgdir].pte, va / PGSIZE, n, pa / PGSIZE, perm)
    {
      ghost var x0 := va / PGSIZE;
      ghost var count := (va + size - 1) / PGSIZE - x0 + 1;
      ghost var v := Now();
      r, n := MapAll(pgdir, PgRoundDown(va), PgRoundDown(va + size - 1), pa, perm, x0, count, pa / PGSIZE);
      if r.Done? {
        EntriesGranted(v.spaces[pgdir].pte, spaces[pgdir].pte, x0, n, pa / PGSIZE, perm);
      }
    }

    /** The loop of mappages, over the pages from a to last. */
    method MapAll(pgdir: nat, a0: nat, last: nat, pa0: nat, perm: nat, ghost x0: nat, ghost count: nat, ghost f0: nat)
      returns (r: Outcome<int>, ghost n: nat)
      requires Valid() && pgdir in spaces && perm < PGSIZE && count > 0 && x0 + count <= NPAGES && f0 + count <= NPAGES
      requires a0 == x0 * PGSIZE && last == (x0 + count - 1) * PGSIZE && pa0 == f0 * PGSIZE
      requires UserFrames(x0, count, f0) <= held
      modifies this
      ensures r.Done? ==> refusals == old(refusals) + if r.value == 0 then 0 else 1
      ensures r.Done? ==> Valid()
      ensures r.Panic? ==> !Unmapped(old(spaces[pgdir]).pte, x0, count)
      ensures r.Done? ==>
        && n <= count && r.value == (if n == count then 0 else -1)
        && NewlyMapped(old(Now()), Now(), pgdir, x0, n, f0, perm)
    {
      var a, pa := a0, pa0;
      n := 0;
      ghost var v := Now();
      OneFrame(x0, 0, f0);
      while true
        invariant a == (x0 + n) * PGSIZE && n < count && pa == (f0 + n) * PGSIZE
        invariant Valid() && NewlyMapped(v, Now(), pgdir, x0, n, f0, perm) && refusals == old(refusals)
        decreases count - n
      {
        ghost var next := n + 1;
        var ok :- MapNext(pgdir, a, pa, perm, v, x0, n, f0, next, count);
        if !ok {
          return Done(-1), n;
        }
        n := next;
        if a == last {
          break;
        }
        a, pa := a + PGSIZE, pa + PGSIZE;
      }
      return Done(0), n;
    }

    /** The n-th round of mappages. */
    method MapNext(pgdir: nat, a: nat, pa: nat, perm: nat, ghost v: View, ghost x0: nat, ghost n: nat, ghost f0: nat,
                   ghost next: nat, ghost count: nat)
      returns (r: Outcome<bool>)
      requires Valid() && Ledger(v) && perm < PGSIZE && x0 + count <= NPAGES && f0 + count <= NPAGES
      requires next == n + 1 <= count && NewlyMapped(v, Now(), pgdir, x0, n, f0, perm)
      requires a == (x0 + n) * PGSIZE && pa == (f0 + n) * PGSIZE && (a < KERNBASE ==> f0 + n in v.held)
      modifies this
      ensures r.Done? ==> refusals == old(refusals) + if r.value then 0 else 1
      ensures r.Done? ==> Valid()
      ensures r.Panic? ==> !Unmapped(v.spaces[pgdir].pte, x0, count)
      ensures r.Done? ==> NewlyMapped(v, Now(), pgdir, x0, if r.value then next else n, f0, perm)
    {
      UnmappedNext(v.spaces[pgdir].pte, x0, n, next, count);
      ghost var mid, x, f := Now(), x0 + n, f0 + n;
      NextUnmapped(v, mid, pgdir, x0, n, f0, perm, x, f);
      var ok :- MapPage(pgdir, a, pa, perm, x, f);
      MappedMore(v, mid, Now(), pgdir, x0, n, f0, perm, x, f, if ok then 1 else 0, if ok then next else n);
      return Done(ok);
    }

    /** mappages for one user page that is not mapped: it cannot halt, and fails only if a frame is refused. */
    method MapOne(pgdir: nat, a: nat, f: nat, perm: nat, ghost x: nat) returns (ok: bool)
      requires Valid() && pgdir in spaces && x < KERNPAGE && a == x * PGSIZE && f in held && perm < PGSIZE && f < NPAGES
      requires !Present(spaces[pgdir].pte[x])
      modifies this
      ensures refusals == old(refusals) + if ok then 0 else 1
      ensures Valid() && Mapped(old(Now()), Now(), pgdir, x, if ok then 1 else 0, f, perm)
    {
      PageNumber(x);
      PageNumber(f);
      OneFrame(x, 1, f);
      var r, n := Mappages(pgdir, a, PGSIZE, f * PGSIZE, perm);
      ok := r.value == 0;
    }

    // ----- Shrinking and freeing

    /** Frees the frame of user page x and clears its entry. */
    method UnmapPage(pgdir: nat, pgtab: nat, x: nat)
      requires Valid() && pgdir in spaces && x < KERNPAGE && Present(spaces[pgdir].pte[x])
      requires Present(spaces[pgdir].pde[x / NPTENTRIES]) && Frame(spaces[pgdir].pde[x / NPTENTRIES]) == pgtab < |mem|
      modifies this`mem, this`free, this`held, this`spaces, this`role
      ensures Valid() && Pool(Now()) == old(Pool(Now())) && held == old(held)
      ensures spaces == old(spaces)[pgdir := old(spaces[pgdir]).(pte := old(spaces[pgdir]).pte[x := 0])]
      ensures role == old(role) - {Frame(old(spaces[pgdir]).pte[x])}
      ensures UsersKept(old(Now()), Now())
    {
      ghost var v := Now();
      LedgerUnmaps(v, pgdir, x);
      assert spaces[pgdir].pte[x] == Walked(mem, spaces[pgdir].pde, x);
      var f := Frame(GetWord(mem[pgtab], x % NPTENTRIES));
      ghost var w := WithPte(v, pgdir, x, 0).(held := held + {f}, role := role - {f});
      Release(f);
      ghost var junk := mem[f];
      mem := mem[pgtab := PutWord(mem[pgtab], x % NPTENTRIES, 0)];
      LedgerKeepsPage(w, f, junk);
      LedgerFrees(w.(mem := w.mem[f := junk]), f);
      spaces, role := w.spaces, w.role;
      assert mem == w.mem[f := junk];
      assert held == w.held - {f};
    }

    /**
     * deallocuvm: gives back the user pages from PGROUNDUP(newsz) on. Where a page table is missing it goes on with the
     * next table; the result is the same as page by page.
     */
    method Deallocuvm(pgdir: nat, oldsz: nat, newsz: nat) returns (r: nat)
      requires Valid() && pgdir in spaces && oldsz <= KERNBASE
      modifies this`mem, this`free, this`held, this`spaces, this`role
      ensures Valid() && r == if newsz >= oldsz then oldsz else newsz
      ensures if newsz >= oldsz then Now() == old(Now())
        else Cleared(old(Now()), Now(), pgdir, Pages(newsz), Pages(oldsz))
    {
      if newsz >= oldsz {
        return oldsz;
      }
      ghost var v, lo, hi := Now(), Pages(newsz), Pages(oldsz);
      var a := PgRoundUp(newsz);
      ghost var x := lo;
      ClearedNothing(v, pgdir, lo);
      PagesMonotone(newsz, oldsz);
      while a < oldsz
        invariant a == x * PGSIZE && lo <= x && Valid()
        invariant Cleared(v, Now(), pgdir, lo, if x < hi then x else hi)
        decreases oldsz - a
      {
        PageBelow(x, oldsz);
        a, x := DeallocStep(pgdir, a, v, lo, x, hi);
      }
      PageBelow(x, oldsz);
      return newsz;
    }

    /** One round of deallocuvm; returns the address to go on with, and its page. */
    method DeallocStep(pgdir: nat, a: nat, ghost v: View, ghost lo: nat, ghost x: nat, ghost hi: nat)
      returns (next: nat, ghost y: nat)
      requires Valid() && Ledger(v) && Cleared(v, Now(), pgdir, lo, x) && lo <= x < hi <= KERNPAGE && a == x * PGSIZE
      modifies this`mem, this`free, this`held, this`spaces, this`role
      ensures Valid() && next == y * PGSIZE && x < y
      ensures Cleared(v, Now(), pgdir, lo, if y < hi then y else hi)
    {
      PageNumber(x);
      var pgtab := PageTable(pgdir, a);
      if pgtab == 0 {
        next := (a / PGSIZE / NPTENTRIES + 1) * NPTENTRIES * PGSIZE - PGSIZE;
        next := next + PGSIZE;
        y := (x / NPTENTRIES + 1) * NPTENTRIES;
        TableEnd(x);
        NoTableNoPages(v, pgdir, x);
        ClearedSkips(v, Now(), pgdir, lo, x, if y < hi then y else hi);
      } else {
        DeallocPage(pgdir, pgtab, a, v, lo, x);
        next := a + PGSIZE;
        y := x + 1;
      }
    }

    /** Gives back the frame of one page, if the page is present. */
    method DeallocPage(pgdir: nat, pgtab: nat, a: nat, ghost v: View, ghost lo: nat, ghost x: nat)
      requires Valid() && Ledger(v) && Cleared(v, Now(), pgdir, lo, x) && lo <= x < KERNPAGE && x == a / PGSIZE
      requires Present(spaces[pgdir].pde[x / NPTENTRIES]) && Frame(spaces[pgdir].pde[x / NPTENTRIES]) == pgtab < |mem|
      modifies this`mem, this`free, this`held, this`spaces, this`role
      ensures Valid() && Cleared(v, Now(), pgdir, lo, x + 1)
    {
      ghost var v' := Now();
      ClearedAhead(v, v', pgdir, lo, x, x);
      assert spaces[pgdir].pte[x] == Walked(mem, spaces[pgdir].pde, x);
      if Present(GetWord(mem[pgtab], a / PGSIZE % NPTENTRIES)) {
        UnmapPage(pgdir, pgtab, a / PGSIZE);
        ClearedMore(v, v', Now(), pgdir, lo, x);
      } else {
        ClearedSkips(v, v', pgdir, lo, x, x + 1);
      }
    }

    /** freevm: every frame of the address space is freed, once, and no other frame. */
    method Freevm(pgdir: nat)
      requires Valid() && pgdir in spaces
      modifies this`mem, this`free, this`held, this`spaces, this`role
      ensures Valid() && Gone(old(Now()), Now(), pgdir)
    {
      ghost var v := Now();
      var _ := Deallocuvm(pgdir, KERNBASE, 0);
      ghost var w := Now();
      AllCleared(v, w, pgdir);
      FreeDirectory(pgdir);
      GoneAtLast(v, w, Now(), pgdir);
    }

    /** What freevm does after the user pages: the tables, then the directory. */
    method FreeDirectory(pgdir: nat)
      requires Valid() && pgdir in spaces && NoUserPages(spaces[pgdir])
      modifies this`mem, this`free, this`held, this`spaces, this`role
      ensures Valid() && Gone(old(Now()), Now(), pgdir)
        && FramesOf(old(Now()), pgdir) == {pgdir} + TablesFrom(old(spaces[pgdir]), 0)
    {
      ghost var w := Now();
      LedgerDropsSpace(w, pgdir);
      held, spaces, role := Dropped(w, pgdir).held, Dropped(w, pgdir).spaces, Dropped(w, pgdir).role;
      FreeTables(pgdir, w);
      Kfree(pgdir);
    }

    /** The loop of freevm over the directory, and nothing else has a pointer to its tables. */
    method FreeTables(pgdir: nat, ghost w: View)
      requires Valid() && Ledger(w) && pgdir in w.spaces && Now() == Dropped(w, pgdir)
      requires FramesOf(w, pgdir) == {pgdir} + TablesFrom(w.spaces[pgdir], 0)
        && pgdir !in TablesFrom(w.spaces[pgdir], 0)
      modifies this`mem, this`free, this`held
      ensures Valid() && held == w.held + {pgdir} && free == w.free + TablesFrom(w.spaces[pgdir], 0)
        && UsersKept(w, Now())
    {
      ghost var t := w.spaces[pgdir];
      var i := 0;
      while i < NPDENTRIES
        invariant i <= NPDENTRIES && Valid() && UsersKept(w, Now()) && mem[pgdir] == w.mem[pgdir]
        invariant held == w.held + {pgdir} + TablesFrom(t, i)
        invariant free == w.free + (TablesFrom(t, 0) - TablesFrom(t, i))
      {
        assert t.pde[i] == GetWord(w.mem[pgdir], i);
        TablesDiffer(w, pgdir, i);
        TablesShrink(t, 0, i);
        var e := GetWord(mem[pgdir], i);
        if Present(e) {
          Kfree(Frame(e));
        }
        i := i + 1;
      }
      assert TablesFrom(t, NPDENTRIES) == {};
    }

    // ----- New address spaces

    /** setupkvm: a space with the kernel's pages and no other; or 0, and every frame taken on the way is free again. */
    method Setupkvm() returns (pgdir: nat)
      requires Valid()
      modifies this
      ensures refusals == old(refusals) + if pgdir != 0 then 0 else 1
      ensures Valid()
      ensures pgdir == 0 ==> Restored(old(Now()), Now())
      ensures pgdir != 0 ==> Added(old(Now()), Now(), pgdir) && KernelOnly(kmap, |kmap|, spaces[pgdir])
      ensures pgdir != 0 ==> KernelMapped(kmap, spaces[pgdir])
    {
      ghost var v := Now();
      pgdir := NewDirectory();
      if pgdir == 0 {
        return;
      }
      var ok := MapKernel(pgdir, v);
      if !ok {
        Discard(pgdir, v);
        pgdir := 0;
      } else {
        KernelIsMapped(kmap, spaces[pgdir]);
      }
    }

    /** The loop of setupkvm over the lines of kmap. */
    method MapKernel(pgdir: nat, ghost v: View) returns (ok: bool)
      requires Valid() && Ledger(v) && Added(v, Now(), pgdir) && KernelOnly(kmap, 0, spaces[pgdir])
      modifies this
      ensures refusals == old(refusals) + if ok then 0 else 1
      ensures Valid() && Added(v, Now(), pgdir)
      ensures ok ==> KernelOnly(kmap, |kmap|, spaces[pgdir])
    {
      var k := 0;
      while k < |kmap|
        invariant k <= |kmap| && Valid() && Added(v, Now(), pgdir) && KernelOnly(kmap, k, spaces[pgdir])
          && refusals == old(refusals)
      {
        var next := k + 1;
        ok := MapRange(pgdir, k, v, next);
        if !ok {
          return;
        }
        k := next;
      }
      return true;
    }

    /** freevm of a space that is not finished. */
    method Discard(pgdir: nat, ghost v: View)
      requires Valid() && Ledger(v) && Added(v, Now(), pgdir)
      modifies this`mem, this`free, this`held, this`spaces, this`role
      ensures Valid() && Restored(v, Now())
    {
      ghost var w := Now();
      Freevm(pgdir);
      AddedThenGone(v, w, Now(), pgdir);
    }

    /** A frame becomes an empty page directory; 0 exactly if it was refused. */
    method NewDirectory() returns (pgdir: nat)
      requires Valid()
      modifies this
      ensures refusals == old(refusals) + if pgdir != 0 then 0 else 1
      ensures Valid()
      ensures pgdir == 0 ==> Now() == old(Now())
      ensures pgdir != 0 ==> Added(old(Now()), Now(), pgdir) && KernelOnly(kmap, 0, spaces[pgdir])
    {
      pgdir := Kalloc();
      if pgdir == 0 {
        return;
      }
      SetPage(pgdir, ZeroPage());
      LedgerAddsSpace(Now(), pgdir);
      held, spaces, role := held - {pgdir}, spaces[pgdir := EmptySpace()], role[pgdir := Dir];
    }

    /** Maps one line of kmap, which overlaps none of the lines before it. */
    method MapRange(pgdir: nat, k: nat, ghost v: View, ghost next: nat) returns (ok: bool)
      requires Valid() && Ledger(v) && Added(v, Now(), pgdir) && k < |kmap| && KernelOnly(kmap, k, spaces[pgdir])
        && next == k + 1
      modifies this
      ensures refusals == old(refusals) + if ok then 0 else 1
      ensures Valid() && Added(v, Now(), pgdir)
      ensures ok ==> KernelOnly(kmap, next, spaces[pgdir])
    {
      LineUnmapped(kmap, k, spaces[pgdir]);
      ok := MapLine(pgdir, kmap[k]);
      AddedGrows(v, old(Now()), Now(), pgdir);
      if ok {
        KernelOnlyMore(kmap, k, old(Now()), Now(), pgdir);
      }
    }

    /** mappages for one line of the kernel's table, whose pages are not mapped. */
    method MapLine(pgdir: nat, r: KernelRange) returns (ok: bool)
      requires Valid() && pgdir in spaces && RangeOk(r) && forall x: nat :: r.Has(x) && x < NPAGES ==>
        !Present(spaces[pgdir].pte[x])
      modifies this
      ensures refusals == old(refusals) + if ok then 0 else 1
      ensures Valid() && Grown(old(Now()), Now(), pgdir) && held == old(held)
      ensures r.perm < PGSIZE && r.start / PGSIZE + r.Size() / PGSIZE <= NPAGES
      ensures ok ==> Mapped(old(Now()), Now(), pgdir, r.virt / PGSIZE, r.Size() / PGSIZE, r.start / PGSIZE, r.perm)
    {
      RangePages(r);
      NoUserFrames(r.virt / PGSIZE, r.Size() / PGSIZE, r.start / PGSIZE);
      var done, n := Mappages(pgdir, r.virt, r.Size(), r.start, r.perm);
      NoUserFrames(r.virt / PGSIZE, n, r.start / PGSIZE);
      ok := done.value == 0;
    }

    // ----- Growing

    /**
     * allocuvm: grows the user pages from [0, PGROUNDUP(oldsz)) to [0, PGROUNDUP(newsz)) by fresh zeroed pages. When it
     * fails, every user page is as before, and only page tables may have been added.
     */
    method Allocuvm(pgdir: nat, oldsz: nat, newsz: nat) returns (r: nat)
      requires Valid() && pgdir in spaces && Sized(spaces[pgdir], oldsz) && oldsz <= KERNBASE
      modifies this
      ensures refusals == old(refusals) + if oldsz <= newsz < KERNBASE && r != newsz then 1 else 0
      ensures Valid() && Grown(old(Now()), Now(), pgdir) && held == old(held)
      ensures newsz >= KERNBASE ==> r == 0 && Now() == old(Now())
      ensures newsz < KERNBASE && newsz < oldsz ==> r == oldsz && Now() == old(Now())
      ensures oldsz <= newsz < KERNBASE ==>
        if r != 0 then r == newsz && Sized(spaces[pgdir], newsz)
          && Extended(old(Now()), Now(), pgdir, Pages(oldsz), Pages(newsz))
        else spaces[pgdir].pte == old(spaces[pgdir]).pte
    {
      if newsz >= KERNBASE {
        return 0;
      }
      if newsz < oldsz {
        return oldsz;
      }
      var ok := AllocPages(pgdir, oldsz, newsz);
      if newsz == 0 {
        assert spaces[pgdir].pte == old(spaces[pgdir]).pte;
      }
      return if ok then newsz else 0;
    }

    /** The loop of allocuvm; when it fails, it has given everything back. */
    method AllocPages(pgdir: nat, oldsz: nat, newsz: nat) returns (ok: bool)
      requires Valid() && pgdir in spaces && Sized(spaces[pgdir], oldsz) && oldsz <= newsz < KERNBASE
      modifies this
      ensures Valid() && held == old(held) && refusals == old(refusals) + if ok then 0 else 1
      ensures ok ==> Extended(old(Now()), Now(), pgdir, Pages(oldsz), Pages(newsz))
      ensures !ok ==> Grown(old(Now()), Now(), pgdir) && spaces[pgdir].pte == old(spaces[pgdir]).pte && newsz > 0
    {
      ghost var v, lo := Now(), Pages(oldsz);
      ExtendedNothing(v, pgdir, lo);
      PagesMonotone(oldsz, newsz);
      var a := PgRoundUp(oldsz);
      ghost var x := lo;
      while a < newsz
        invariant a == x * PGSIZE && lo <= x <= Pages(newsz) && Valid() && held == v.held
        invariant Extended(v, Now(), pgdir, lo, x) && refusals == old(refusals)
      {
        PageBelow(x, newsz);
        ghost var next := x + 1;
        ok := AllocRound(pgdir, oldsz, newsz, a, v, lo, x, next);
        if !ok {
          return;
        }
        a := a + PGSIZE;
        x := next;
      }
      PageBelow(x, newsz);
      return true;
    }

    /** One round of allocuvm. When it fails, all pages of this call are given back. */
    method AllocRound(pgdir: nat, oldsz: nat, newsz: nat, a: nat, ghost v: View, ghost lo: nat, ghost x: nat,
                      ghost next: nat)
      returns (ok: bool)
      requires Valid() && Ledger(v) && pgdir in v.spaces && Extended(v, Now(), pgdir, lo, x) && held == v.held
      requires Sized(v.spaces[pgdir], oldsz) && oldsz < newsz < KERNBASE && lo == Pages(oldsz)
      requires lo <= x < Pages(newsz) && a == x * PGSIZE && next == x + 1
      modifies this
      ensures Valid() && held == v.held && refusals == old(refusals) + if ok then 0 else 1
      ensures ok ==> Extended(v, Now(), pgdir, lo, next)
      ensures !ok ==> Grown(v, Now(), pgdir) && spaces[pgdir].pte == v.spaces[pgdir].pte
    {
      PagesMonotone(newsz, KERNBASE);
      var f;
      ok, f := AllocPage(pgdir, a, v, lo, x, next);
      if !ok {
        UndoAlloc(pgdir, newsz, oldsz, f, v);
      }
    }

    /** kalloc and mappages of one round. When it fails, f is the frame that it could not map, or 0. */
    method AllocPage(pgdir: nat, a: nat, ghost v: View, ghost lo: nat, ghost x: nat, ghost next: nat)
      returns (ok: bool, f: nat)
      requires Valid() && Ledger(v) && pgdir in v.spaces && Extended(v, Now(), pgdir, lo, x) && held == v.held
      requires lo <= x < KERNPAGE && a == x * PGSIZE && !Present(v.spaces[pgdir].pte[x]) && next == x + 1
      modifies this
      ensures refusals == old(refusals) + if ok then 0 else 1
      ensures Valid()
      ensures ok ==> Extended(v, Now(), pgdir, lo, next) && held == v.held
      ensures !ok ==> Grown(v, Now(), pgdir) && spaces[pgdir].pte == old(spaces[pgdir]).pte
      ensures !ok ==> if f == 0 then held == v.held else f in v.free && f !in v.held && held == v.held + {f}
    {
      f := Kalloc();
      if f == 0 {
        return false, 0;
      }
      ok := MapFresh(pgdir, a, f, old(Now()), v, lo, x, next);
    }

    /** Clears a fresh frame and maps it at page x, open to the user. */
    method MapFresh(pgdir: nat, a: nat, f: nat, ghost v': View, ghost v: View, ghost lo: nat, ghost x: nat,
                    ghost next: nat)
      returns (ok: bool)
      requires Valid() && Ledger(v) && Ledger(v') && pgdir in v.spaces && Extended(v, v', pgdir, lo, x)
        && v'.held == v.held
      requires lo <= x < KERNPAGE && a == x * PGSIZE && !Present(v.spaces[pgdir].pte[x]) && next == x + 1
      requires f in v'.free && Now() == v'.(free := v'.free - {f}, held := v'.held + {f})
      modifies this
      ensures refusals == old(refusals) + if ok then 0 else 1
      ensures Valid() && f in v.free && f !in v.held
      ensures ok ==> Extended(v, Now(), pgdir, lo, next) && held == v.held
      ensures !ok ==> Grown(v, Now(), pgdir) && spaces[pgdir].pte == v'.spaces[pgdir].pte && held == v.held + {f}
    {
      SetPage(f, ZeroPage());
      ghost var w := Now();
      FrameTaken(v', w, pgdir, f, ZeroPage());
      assert w.spaces[pgdir].pte[x] == v.spaces[pgdir].pte[x];
      ok := MapOne(pgdir, a, f, 6, x);
      FreshFrame(v, v', pgdir, f);
      if ok {
        ExtendedMore(v, v', w, Now(), pgdir, lo, x, next, f);
      } else {
        FreshFails(v, v', w, Now(), pgdir, lo, x, f);
      }
    }

    /** Undoes a growth that failed half way, and frees the frame in hand, if any. */
    method UndoAlloc(pgdir: nat, newsz: nat, oldsz: nat, f: nat, ghost v: View)
      requires Valid() && Ledger(v) && Grown(v, Now(), pgdir) && oldsz < newsz < KERNBASE
        && Sized(v.spaces[pgdir], oldsz)
      requires SameOutside(v.spaces[pgdir].pte, spaces[pgdir].pte, Pages(oldsz), Pages(newsz))
      requires if f == 0 then held == v.held else f in v.free && f !in v.held && held == v.held + {f}
      modifies this`mem, this`free, this`held, this`spaces, this`role
      ensures Valid() && Grown(v, Now(), pgdir) && held == v.held && spaces[pgdir].pte == v.spaces[pgdir].pte
    {
      ghost var w := Now();
      PagesMonotone(oldsz, newsz);
      PagesMonotone(newsz, KERNBASE);
      var _ := Deallocuvm(pgdir, newsz, oldsz);
      GrownThenCleared(v, w, Now(), pgdir, Pages(oldsz), Pages(newsz));
      if f != 0 {
        DropFrame(pgdir, f, v);
      }
    }

    /** Gives back a frame that was free in v. */
    method DropFrame(pgdir: nat, f: nat, ghost v: View)
      requires Valid() && Ledger(v) && Grown(v, Now(), pgdir) && f in v.free && f !in v.held && held == v.held + {f}
      modifies this`mem, this`free, this`held
      ensures Valid() && Grown(v, Now(), pgdir) && held == v.held
    {
      Kfree(f);
    }

    // ----- Copying

    /**
     * copyuvm: a new space whose user pages are copies of those of pgdir, with the
     * same flags, in frames that were free; or 0, and every frame taken on the way
     * is free again. Its panics cannot be reached when the sz bytes are mapped.
     */
    method Copyuvm(pgdir: nat, sz: nat) returns (d: nat)
      requires Valid() && pgdir in spaces && sz <= KERNBASE
      requires forall x: nat :: x < Pages(sz) && x < KERNPAGE ==> Present(spaces[pgdir].pte[x])
      modifies this
      ensures refusals == old(refusals) + if d != 0 then 0 else 1
      ensures Valid()
      ensures d == 0 ==> Restored(old(Now()), Now())
      ensures d != 0 ==> Added(old(Now()), Now(), d) && CopiedTo(kmap, old(Now()), Now(), pgdir, d, Pages(sz))
    {
      ghost var v := Now();
      d := Setupkvm();
      if d != 0 {
        var ok := CopyPages(pgdir, sz, d, v);
        if !ok {
          d := 0;
        }
      }
    }

    /** The loop of copyuvm. */
    method CopyPages(pgdir: nat, sz: nat, d: nat, ghost v: View) returns (ok: bool)
      requires Valid() && Ledger(v) && pgdir in v.spaces && sz <= KERNBASE && Added(v, Now(), d)
        && KernelOnly(kmap, |kmap|, spaces[d])
      requires forall x: nat :: x < Pages(sz) && x < KERNPAGE ==> Present(v.spaces[pgdir].pte[x])
      modifies this
      ensures Valid() && refusals == old(refusals) + if ok then 0 else 1
      ensures if ok then Added(v, Now(), d) && CopiedTo(kmap, v, Now(), pgdir, d, Pages(sz)) else Restored(v, Now())
    {
      PagesMonotone(sz, KERNBASE);
      var i := 0;
      ghost var x := 0;
      while i < sz
        invariant i == x * PGSIZE && x <= Pages(sz) && Valid()
        invariant Added(v, Now(), d) && CopiedTo(kmap, v, Now(), pgdir, d, x) && refusals == old(refusals)
      {
        PageBelow(x, sz);
        ghost var next := x + 1;
        ok := CopyNext(pgdir, d, i, v, x, next);
        if !ok {
          return;
        }
        i := i + PGSIZE;
        x := next;
      }
      PageBelow(x, sz);
      return true;
    }

    /** One round of copyuvm; when it fails, it ends in freevm(d). */
    method CopyNext(pgdir: nat, d: nat, i: nat, ghost v: View, ghost x: nat, ghost next: nat) returns (ok: bool)
      requires Valid() && Ledger(v) && Added(v, Now(), d) && CopiedTo(kmap, v, Now(), pgdir, d, x)
      requires x < KERNPAGE && i == x * PGSIZE && Present(v.spaces[pgdir].pte[x]) && next == x + 1
      modifies this
      ensures Valid() && refusals == old(refusals) + if ok then 0 else 1
      ensures if ok then Added(v, Now(), d) && CopiedTo(kmap, v, Now(), pgdir, d, next) else Restored(v, Now())
    {
      ok := CopyPage(pgdir, d, i, v, x, next);
      if !ok {
        Discard(d, v);
      }
    }

    /** kalloc, memmove and mappages of one round. */
    method CopyPage(pgdir: nat, d: nat, i: nat, ghost v: View, ghost x: nat, ghost next: nat) returns (ok: bool)
      requires Valid() && Ledger(v) && Added(v, Now(), d) && CopiedTo(kmap, v, Now(), pgdir, d, x)
      requires x < KERNPAGE && i == x * PGSIZE && Present(v.spaces[pgdir].pte[x]) && next == x + 1
      modifies this
      ensures refusals == old(refusals) + if ok then 0 else 1
      ensures Valid() && Added(v, Now(), d)
      ensures ok ==> CopiedTo(kmap, v, Now(), pgdir, d, next)
    {
      ghost var v' := Now();
      var pte := ReadPte(pgdir, i, x);
      SourceKept(v, v', pgdir, d, x);
      var f := Kalloc();
      if f == 0 {
        return false;
      }
      ok := CopyInto(pgdir, d, i, f, pte, v', v, x, next);
    }

    /** Copies one page into a fresh frame and maps it in d; the frame is given back if that fails. */
    method CopyInto(pgdir: nat, d: nat, i: nat, f: nat, pte: nat, ghost v': View, ghost v: View, ghost x: nat,
                    ghost next: nat)
      returns (ok: bool)
      requires Valid() && Ledger(v) && Ledger(v') && Added(v, v', d) && CopiedTo(kmap, v, v', pgdir, d, x)
      requires x < KERNPAGE && i == x * PGSIZE && Present(v.spaces[pgdir].pte[x]) && pte == v.spaces[pgdir].pte[x]
      requires Frame(pte) < |v.mem| == |mem| && v'.mem[Frame(pte)] == v.mem[Frame(pte)]
      requires f in v'.free && Now() == v'.(free := v'.free - {f}, held := v'.held + {f}) && next == x + 1
      modifies this
      ensures refusals == old(refusals) + if ok then 0 else 1
      ensures Valid() && Added(v, Now(), d)
      ensures ok ==> CopiedTo(kmap, v, Now(), pgdir, d, next)
    {
      SetPage(f, mem[Frame(pte)]);
      ghost var w := Now();
      FrameTaken(v', w, d, f, mem[f]);
      assert w.spaces[d].pte[x] == 0;
      ok := MapCopy(pgdir, d, i, f, pte, v', v, w, x, next);
    }

    method MapCopy(pgdir: nat, d: nat, i: nat, f: nat, pte: nat, ghost v': View, ghost v: View, ghost w: View,
                   ghost x: nat, ghost next: nat)
      returns (ok: bool)
      requires Valid() && Ledger(v) && Ledger(v') && Added(v, v', d) && CopiedTo(kmap, v, v', pgdir, d, x) && w == Now()
      requires x < KERNPAGE && i == x * PGSIZE && Present(v.spaces[pgdir].pte[x]) && pte == v.spaces[pgdir].pte[x]
      requires Frame(pte) < |v.mem| && f < NPAGES && f < |mem| && mem[f] == v.mem[Frame(pte)] && next == x + 1
      requires Taking(v', w, d, f) && w.spaces[d].pte[x] == 0
      modifies this
      ensures refusals == old(refusals) + if ok then 0 else 1
      ensures Valid() && Added(v, Now(), d)
      ensures ok ==> CopiedTo(kmap, v, Now(), pgdir, d, next)
    {
      ok := MapOne(d, i, f, Flags(pte), x);
      if ok {
        PageCopied(kmap, v, v', w, Now(), pgdir, d, x, next, f);
      } else {
        CopyFails(v', w, Now(), d, x, f, Flags(pte));
        DropCopy(d, f, v', v);
      }
    }

    /** Gives back the frame of a page that could not be mapped. */
    method DropCopy(d: nat, f: nat, ghost v': View, ghost v: View)
      requires Valid() && Ledger(v) && Ledger(v') && Added(v, v', d) && Grown(v', Now(), d)
      requires f in v'.free && f !in v'.held && held == v'.held + {f}
      modifies this`mem, this`free, this`held, this`spaces, this`role
      ensures Valid() && Added(v, Now(), d)
    {
      Kfree(f);
      AddedGrows(v, v', Now(), d);
    }

    /** The entry of a user page that is mapped. */
    method ReadPte(pgdir: nat, i: nat, ghost x: nat) returns (pte: nat)
      requires Valid() && pgdir in spaces && x < KERNPAGE && i == x * PGSIZE && Present(spaces[pgdir].pte[x])
      ensures pte == spaces[pgdir].pte[x] && Frame(pte) < |mem|
    {
      PageNumber(x);
      assert spaces[pgdir].pte[x] == Walked(mem, spaces[pgdir].pde, x);
      var pgtab := PageTable(pgdir, i);
      pte := GetWord(mem[pgtab], i / PGSIZE % NPTENTRIES);
    }

    // ----- User memory

    /** Takes the user's access to a mapped page away. */
    method Clearpteu(pgdir: nat, uva: nat)
      requires Valid() && pgdir in spaces && uva < KERNBASE && Present(spaces[pgdir].pte[uva / PGSIZE])
      modifies this`mem, this`free, this`held, this`spaces, this`role
      ensures Valid() && Closed(old(Now()), Now(), pgdir, uva / PGSIZE)
      ensures var w, w' := old(spaces[pgdir].pte[uva / PGSIZE]), spaces[pgdir].pte[uva / PGSIZE];
        Frame(w') == Frame(w) && !Bit(w', 2) && forall k: nat :: k != 2 ==> (Bit(w', k) <==> Bit(w, k))
    {
      ghost var x := uva / PGSIZE;
      assert spaces[pgdir].pte[x] == Walked(mem, spaces[pgdir].pde, x);
      var pgtab := PageTable(pgdir, uva);
      var pte := GetWord(mem[pgtab], uva / PGSIZE % NPTENTRIES);
      ghost var w := WithPte(Now(), pgdir, x, WithoutUser(pte));
      LedgerKeepsFrame(Now(), pgdir, x, WithoutUser(pte));
      WriteChangesOneEntry(Now(), pgdir, x, WithoutUser(pte));
      assert role[pgtab] == Table(pgdir, x / NPTENTRIES);
      mem := mem[pgtab := PutWord(mem[pgtab], uva / PGSIZE % NPTENTRIES, WithoutUser(pte))];
      spaces := w.spaces;
      assert Now() == w;
      OnlyUserCleared(pte);
    }

    /**
     * uva2ka: the frame behind a user address, or 0 if the user may not
     * use it. It reads through a null pointer without a page table.
     */
    method Uva2ka(pgdir: nat, uva: nat) returns (r: Outcome<nat>)
      requires Valid() && pgdir in spaces && uva < WORD_LIMIT && KernelClosed(spaces[pgdir])
      ensures r.Panic? <==> !Present(spaces[pgdir].pde[uva / PGSIZE / NPTENTRIES])
      ensures r.Done? ==> (r.value != 0 <==> Open(Now(), pgdir, uva))
      ensures r.Done? && r.value != 0 ==> r.value == Frame(spaces[pgdir].pte[uva / PGSIZE])
    {
      var pgtab := PageTable(pgdir, uva);
      ghost var x := uva / PGSIZE;
      assert spaces[pgdir].pte[x] == Walked(mem, spaces[pgdir].pde, x);
      if pgtab == 0 {
        return Panic;
      }
      var pte := GetWord(mem[pgtab], uva / PGSIZE % NPTENTRIES);
      if !Present(pte) || !UserBit(pte) {
        return Done(0);
      }
      assert role[Frame(pte)] == User(pgdir, x);
      return Done(Frame(pte));
    }

    /** memmove into part of a user page. */
    method Poke(f: nat, at: nat, piece: seq<byte>, ghost d: nat, ghost va: nat)
      requires Valid() && Mapt(Now(), d, va) && f == Frame(spaces[d].pte[va / PGSIZE]) && at == va % PGSIZE
        && at + |piece| <= PGSIZE
      modifies this`mem
      ensures Valid() && Poked(old(Now()), Now(), d, va, piece)
    {
      assert role[f] == User(d, va / PGSIZE);
      PagePoked(Now(), d, va / PGSIZE, va, piece, PageWith(mem[f], at, piece));
      SetPage(f, PageWith(mem[f], at, piece));
    }

    /** One round of copyout: as much as fits into the page of cur. */
    method CopyPiece(pgdir: nat, cur: nat, va0: nat, piece: seq<byte>) returns (r: Outcome<bool>)
      requires Valid() && pgdir in spaces && KernelClosed(spaces[pgdir]) && cur < WORD_LIMIT && va0 == PgRoundDown(cur)
      requires cur - va0 + |piece| <= PGSIZE && 0 < |piece|
      modifies this`mem, this`free, this`held, this`spaces, this`role
      ensures Valid()
      ensures r.Panic? <==> !HasTable(old(Now()), pgdir, cur)
      ensures r == Done(false) ==> Now() == old(Now()) && !Open(Now(), pgdir, cur)
      ensures r == Done(true) ==>
        Poked(old(Now()), Now(), pgdir, cur, piece) && forall a :: cur <= a < cur + |piece| ==>
          Open(old(Now()), pgdir, a)
    {
      RoundDown(cur);
      var pa0 :- Uva2ka(pgdir, va0);
      if pa0 == 0 {
        return Done(false);
      }
      SamePages(Now(), pgdir, cur, |piece|);
      Poke(pa0, cur - va0, piece, pgdir, cur);
      return Done(true);
    }

    /**
     * copyout: writes p at user address va, if every byte of it is open to the user; otherwise it stops with -1 at the
     * first page that is not. It reads through a null pointer exactly if everything before some address is open, and
     * that has no page table; the outcome Panic stands for that, since what is read there is the user's.
     */
    method Copyout(pgdir: nat, va: nat, p: seq<byte>) returns (r: Outcome<int>)
      requires Valid() && pgdir in spaces && KernelClosed(spaces[pgdir]) && va < WORD_LIMIT
      modifies this`mem, this`free, this`held, this`spaces, this`role
      ensures r.Panic? <==> CopyReadsNull(old(Now()), pgdir, va, |p|)
      ensures r.Done? ==> Valid() && OnlyPagesOf(old(Now()), Now(), pgdir) && (r.value == 0 || r.value == -1)
      ensures r.Done? ==> (r.value == 0 <==> AllOpen(old(Now()), pgdir, va, |p|))
      ensures r == Done(0) ==> Poked(old(Now()), Now(), pgdir, va, p)
    {
      ghost var v := Now();
      var cur, len := va, |p|;
      ghost var i := 0;
      CopiedNothing(v, pgdir, va, p);
      while len > 0
        invariant 0 <= len <= |p| && i == |p| - len && (len > 0 ==> cur == va + i < WORD_LIMIT)
        invariant Valid() && CopiedOut(v, Now(), pgdir, va, p, i)
      {
        ghost var next;
        var ok;
        ok, next := CopyRound(pgdir, cur, p, len, v, va, i);
        if ok.Panic? {
          return Panic;
        }
        if ok.value == 0 {
          StopsBeforeNullRead(v, pgdir, va, |p|, i, cur);
          return Done(-1);
        }
        len, i := len - ok.value, next;
        cur := (PgRoundDown(cur) + PGSIZE) % WORD_LIMIT;
      }
      NoNullReadWhenOpen(v, pgdir, va, |p|);
      assert p[..|p|] == p;
      return Done(0);
    }

    /** One round of copyout, with i bytes copied already; 0 when it stops. */
    method CopyRound(pgdir: nat, cur: nat, p: seq<byte>, len: nat, ghost v: View, ghost va: nat, ghost i: nat)
      returns (r: Outcome<nat>, ghost next: nat)
      requires Valid() && Ledger(v) && pgdir in v.spaces && KernelClosed(v.spaces[pgdir])
      requires 0 < len <= |p| && i == |p| - len && cur == va + i < WORD_LIMIT
      requires CopiedOut(v, Now(), pgdir, va, p, i)
      modifies this`mem, this`free, this`held, this`spaces, this`role
      ensures Valid()
      ensures r.Panic? <==> !HasTable(v, pgdir, cur)
      ensures r == Done(0) ==> OnlyPagesOf(v, Now(), pgdir) && !Open(v, pgdir, cur)
      ensures r.Done? && r.value > 0 ==>
        && r.value <= len && next == i + r.value && CopiedOut(v, Now(), pgdir, va, p, next)
        && (r.value < len ==> (PgRoundDown(cur) + PGSIZE) % WORD_LIMIT == cur + r.value < WORD_LIMIT)
    {
      ghost var v' := Now();
      var room := PGSIZE - (cur - PgRoundDown(cur));
      var n := if room > len then len else room;
      next := i + n;
      var piece := p[|p| - len..|p| - len + n];
      var ok;
      ok := CopyPiece(pgdir, cur, PgRoundDown(cur), piece);
      if ok.Panic? {
        return Panic, next;
      }
      if !ok.value {
        return Done(0), next;
      }
      CopiedMore(v, v', Now(), pgdir, va, p, i, next, cur, piece);
      assert Open(v, pgdir, cur);
      RoundEnds(cur, n, len);
      return Done(n), next;
    }

    /**
     * loaduvm: fills the mapped pages of [addr, addr + sz) from the file, which must be long enough; -1 if it is not.
     * It halts exactly on a misaligned address.
     */
    method Loaduvm(pgdir: nat, addr: nat, file: seq<byte>, offset: nat, sz: nat) returns (r: Outcome<int>)
      requires Valid() && pgdir in spaces && forall a :: addr <= a < addr + sz ==> Mapt(Now(), pgdir, a)
      requires offset < WORD_LIMIT && |file| < WORD_LIMIT
      modifies this`mem, this`free, this`held, this`spaces, this`role
      ensures r.Panic? <==> addr % PGSIZE != 0
      ensures r.Done? ==> Valid() && OnlyPagesOf(old(Now()), Now(), pgdir)
      ensures r.Done? ==> r.value == if sz == 0 || offset + sz <= |file| then 0 else -1
      ensures r == Done(0) ==> Poked(old(Now()), Now(), pgdir, addr, From(file, offset, sz))
    {
      if addr % PGSIZE != 0 {
        return Panic;
      }
      ghost var v := Now();
      var i := 0;
      var va := addr;
      ghost var done := 0;
      PokedNothing(v, pgdir, addr);
      while i < sz
        invariant va == addr + i && va % PGSIZE == 0 && Valid() && done == if i < sz then i else sz
        invariant LoadedTo(v, Now(), pgdir, addr, file, offset, done)
      {
        var n := if sz - i < PGSIZE then sz - i else PGSIZE;
        ghost var next := done + n;
        assert Mapt(v, pgdir, va);
        NextPage(va);
        var ok := LoadPage(pgdir, addr, file, offset, i, va, n, v, done, next);
        if !ok {
          return Done(-1);
        }
        i, va := i + PGSIZE, va + PGSIZE;
        done := next;
      }
      LoadedAll(v, Now(), pgdir, addr, file, offset, done, sz);
      return Done(0);
    }

    /** One round of loaduvm: readi into the page of addr + i. */
    method LoadPage(pgdir: nat, addr: nat, file: seq<byte>, offset: nat, i: nat, va: nat, n: nat, ghost v: View,
                    ghost done: nat, ghost next: nat)
      returns (ok: bool)
      requires Valid() && Ledger(v) && va == addr + i && Mapt(v, pgdir, va) && va % PGSIZE == 0 && 0 < n <= PGSIZE
      requires offset < WORD_LIMIT && |file| < WORD_LIMIT && LoadedTo(v, Now(), pgdir, addr, file, offset, done)
      requires done == i && next == i + n
      modifies this`mem, this`free, this`held, this`spaces, this`role
      ensures Valid() && OnlyPagesOf(v, Now(), pgdir)
      ensures ok <==> offset + i + n <= |file|
      ensures ok ==> LoadedTo(v, Now(), pgdir, addr, file, offset, next)
    {
      ghost var v' := Now();
      var from := (offset + i) % WORD_LIMIT;
      MaptKept(v, v', pgdir, va);
      NoWrap(offset, i, |file|);
      var got := ReadAt(file, from, n);
      if got.None? {
        return false;
      }
      PokeWalked(pgdir, va, got.value);
      OnlyPagesTwice(v, v', Now(), pgdir);
      if |got.value| != n {
        return false;
      }
      FromMore(v, v', Now(), pgdir, addr, file, offset, i, n, next, va, from, got.value);
      return true;
    }

    /** Writes into the page that walkpgdir finds for the aligned address va. */
    method PokeWalked(pgdir: nat, va: nat, piece: seq<byte>)
      requires Valid() && Mapt(Now(), pgdir, va) && va % PGSIZE == 0 && |piece| <= PGSIZE
      modifies this`mem, this`free, this`held, this`spaces, this`role
      ensures Valid() && Poked(old(Now()), Now(), pgdir, va, piece)
    {
      Aligned(va, 0);
      var pte := ReadPte(pgdir, va, va / PGSIZE);
      Poke(Frame(pte), 0, piece, pgdir, va);
    }
  }
}
