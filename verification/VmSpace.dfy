/** What the operations of vm.c do to one address space, and what they leave alone. */
module VmSpace {
  import opened Bytes
  import opened VmLedger

  function PgRoundUp(sz: nat): nat {
    (sz + PGSIZE - 1) / PGSIZE * PGSIZE
  }

  function PgRoundDown(a: nat): nat {
    a / PGSIZE * PGSIZE
  }

  /** How many pages sz bytes take. */
  function Pages(sz: nat): nat {
    (sz + PGSIZE - 1) / PGSIZE
  }

  /** They are enough for sz bytes, and no page is wasted. */
  lemma PagesCover(sz: nat)
    ensures sz <= Pages(sz) * PGSIZE < sz + PGSIZE && PgRoundUp(sz) == Pages(sz) * PGSIZE
    ensures PgRoundDown(sz) <= sz < PgRoundDown(sz) + PGSIZE && PgRoundDown(sz) % PGSIZE == 0
  {
    assert PgRoundDown(sz) == PGSIZE * (sz / PGSIZE);
  }

  /** The user pages are exactly [0, PGROUNDUP(sz)). */
  ghost predicate Sized(t: Space, sz: nat) {
    forall x: nat :: x < KERNPAGE ==> (Present(t.pte[x]) <==> x < Pages(sz))
  }

  /** The page that virtual page x of space d shows. */
  ghost function PageAt(v: View, d: nat, x: nat): Page
    requires d in v.spaces && x < NPAGES && Frame(v.spaces[d].pte[x]) < |v.mem|
  {
    v.mem[Frame(v.spaces[d].pte[x])]
  }

  /** No user page, and no page in the caller's hands, has changed, as far as it is still there. */
  ghost predicate UsersKept(v: View, v': View) {
    && |v'.mem| == |v.mem|
    && (forall f {:trigger v'.mem[f]} ::
       0 <= f < |v.mem| && f in v.role && v.role[f].User? && f in v'.role && v'.role[f] == v.role[f] ==>
          v'.mem[f] == v.mem[f])
    && (forall f {:trigger v'.mem[f]} ::
       0 <= f < |v.mem| && f in v.held && (f in v'.held || (f in v'.role && v'.role[f].User?)) ==>
          v'.mem[f] == v.mem[f])
  }

  /**
   * Space d has gained tables and pages; no frame has lost its role, no other space and no old user page has changed.
   */
  ghost predicate Grown(v: View, v': View, d: nat) {
    && d in v.spaces && v'.spaces.Keys == v.spaces.Keys && Pool(v') == Pool(v)
    && (forall e :: e in v.spaces && e != d ==> v'.spaces[e] == v.spaces[e])
    && (forall i: nat :: i < NPDENTRIES && Present(v.spaces[d].pde[i]) ==> v'.spaces[d].pde[i] == v.spaces[d].pde[i])
    && (forall f :: f in v.role ==> f in v'.role && v'.role[f] == v.role[f])
    && (forall f :: f in v'.role && f !in v.role ==> Belongs(v'.role[f], f, d) && f in v.free + v.held)
    && UsersKept(v, v')
  }

  lemma GrownTwice(v: View, v': View, v'': View, d: nat)
    requires Grown(v, v', d) && Grown(v', v'', d) && v.held <= v'.held + v'.role.Keys
    requires Apart(v) && Apart(v') && Apart(v'')
    ensures Grown(v, v'', d)
  {
    forall f | f in v''.role && f !in v.role
      ensures Belongs(v''.role[f], f, d) && f in v.free + v.held
    {
      assert f in Pool(v'') && f in Pool(v);
    }
  }

  /** What is free after growing was free before. */
  lemma FreshFrame(v: View, v': View, d: nat, f: nat)
    requires Apart(v) && Apart(v') && Grown(v, v', d) && v'.held == v.held && f in v'.free
    ensures f in v.free && f !in v.held
  {
    assert f in Pool(v') && f in Pool(v);
  }

  /** Of n pages from x0 on, mapped to the frames from f0 on, the frames of those that are user pages. */
  ghost function UserFrames(x0: nat, n: nat, f0: nat): (s: set<nat>)
    ensures forall f: nat :: f in s <==> f0 <= f < f0 + n && x0 + (f - f0) < KERNPAGE
  {
    if n == 0 then {} else UserFrames(x0, n - 1, f0) + if x0 + n - 1 < KERNPAGE then {f0 + n - 1} else {}
  }

  /** Directory entry i is the one for some of the n pages from x0 on. */
  predicate InSlots(x0: nat, n: nat, i: nat) {
    n > 0 && x0 / NPTENTRIES <= i <= (x0 + n - 1) / NPTENTRIES
  }

  /** The page tables of t and those of the n pages from x0 on are the page tables of t'. */
  ghost predicate TablesAdded(t: Space, t': Space, x0: nat, n: nat) {
    forall i: nat {:trigger t'.pde[i]} :: i < NPDENTRIES ==>
      if Present(t.pde[i]) || !InSlots(x0, n, i) then t'.pde[i] == t.pde[i]
      else Present(t'.pde[i]) && Flags(t'.pde[i]) == 1 + PTE_W + PTE_U
  }

  lemma TablesAddedMore(t: Space, t': Space, t'': Space, x0: nat, n: nat, x: nat, k: nat, m: nat)
    requires x == x0 + n && k <= 1 && m == n + k && TablesAdded(t, t', x0, n) && TablesAdded(t', t'', x, k)
    ensures TablesAdded(t, t'', x0, m)
  {
    forall i: nat | i < NPDENTRIES
      ensures if Present(t.pde[i]) || !InSlots(x0, m, i) then t''.pde[i] == t.pde[i]
              else Present(t''.pde[i]) && Flags(t''.pde[i]) == 1 + PTE_W + PTE_U
    {
      assert InSlots(x0, m, i) <==> InSlots(x0, n, i) || InSlots(x, k, i);
      assert if Present(t.pde[i]) || !InSlots(x0, n, i) then t'.pde[i] == t.pde[i] else Present(t'.pde[i]);
    }
  }

  /**
   * The first n pages from x0 on have been mapped to the frames from f0 on, through page tables that may be new. The
   * frames of user pages have left the caller's hands.
   */
  ghost predicate Mapped(v: View, v': View, d: nat, x0: nat, n: nat, f0: nat, perm: nat)
    requires perm < PGSIZE && f0 + n <= NPAGES
  {
    && Grown(v, v', d) && EntriesSet(v.spaces[d].pte, v'.spaces[d].pte, x0, n, f0, perm)
    && v'.held == v.held - UserFrames(x0, n, f0)
    && TablesAdded(v.spaces[d], v'.spaces[d], x0, n)
  }

  lemma MappedMore(v: View, v': View, v'': View, d: nat, x0: nat, n: nat, f0: nat, perm: nat, x: nat, f: nat, k: nat,
                  m: nat)
    requires Apart(v) && Roles(v') && Apart(v'') && perm < PGSIZE && f0 + n + k <= NPAGES && k <= 1
    requires x == x0 + n && f == f0 + n && x + k <= NPAGES && m == n + k
    requires Mapped(v, v', d, x0, n, f0, perm) && Mapped(v', v'', d, x, k, f, perm)
    ensures Mapped(v, v'', d, x0, m, f0, perm)
  {
    MappedRoles(v, v', d, x0, n, f0, perm);
    GrownTwice(v, v', v'', d);
    TablesAddedMore(v.spaces[d], v'.spaces[d], v''.spaces[d], x0, n, x, k, m);
    UserFramesMore(x0, n, f0, x, k, f, m);
    assert v''.held == v.held - UserFrames(x0, m, f0);
    EntriesMore(v.spaces[d].pte, v'.spaces[d].pte, v''.spaces[d].pte, x0, n, f0, perm, k, m);
  }

  /** The entries that map n pages from x0 on to the frames from f0 on have been written. */
  ghost predicate EntriesSet(t: seq<nat>, t': seq<nat>, x0: nat, n: nat, f0: nat, perm: nat)
    requires |t| == |t'| == NPAGES && perm < PGSIZE && f0 + n <= NPAGES
  {
    forall x: nat {:trigger t'[x]} :: x < NPAGES ==>
      t'[x] == if x0 <= x < x0 + n then Entry(f0 + (x - x0), perm) else t[x]
  }

  /** None of the pages x0 .. x0 + n - 1 is mapped. */
  ghost predicate Unmapped(t: seq<nat>, x0: nat, n: nat)
    requires x0 + n <= |t|
  {
    forall x: nat :: x0 <= x < x0 + n ==> !Present(t[x])
  }

  /** n pages from x0 on that were not mapped have been mapped to the frames from f0 on. */
  ghost predicate NewlyMapped(v: View, v': View, d: nat, x0: nat, n: nat, f0: nat, perm: nat)
    requires perm < PGSIZE && f0 + n <= NPAGES && x0 + n <= NPAGES
  {
    Mapped(v, v', d, x0, n, f0, perm) && Unmapped(v.spaces[d].pte, x0, n)
  }

  ghost predicate SameOutside(t: seq<nat>, t': seq<nat>, lo: nat, hi: nat)
    requires |t| == |t'| == NPAGES
  {
    forall x: nat :: x < NPAGES && !(lo <= x < hi) ==> t'[x] == t[x]
  }

  lemma UnmappedNext(t: seq<nat>, x0: nat, n: nat, next: nat, count: nat)
    requires next == n + 1 <= count && x0 + count <= |t|
    ensures Present(t[x0 + n]) ==> !Unmapped(t, x0, count)
    ensures Unmapped(t, x0, n) && !Present(t[x0 + n]) ==> Unmapped(t, x0, next)
  {
  }

  /** The n pages from x0 on are mapped to the frames from f0 on, with the rights of perm. */
  ghost predicate Granted(t: seq<nat>, x0: nat, n: nat, f0: nat, perm: nat)
    requires x0 + n <= |t|
  {
    forall x: nat :: x0 <= x < x0 + n ==> Grants(t[x], f0 + (x - x0), perm)
  }

  lemma EntriesGranted(t: seq<nat>, t': seq<nat>, x0: nat, n: nat, f0: nat, perm: nat)
    requires |t| == |t'| == NPAGES && perm < PGSIZE && f0 + n <= NPAGES && x0 + n <= NPAGES
    requires EntriesSet(t, t', x0, n, f0, perm)
    ensures Granted(t', x0, n, f0, perm)
  {
    forall x: nat | x0 <= x < x0 + n
      ensures Grants(t'[x], f0 + (x - x0), perm)
    {
      EntryGrants(f0 + (x - x0), perm);
    }
  }

  lemma EntriesMore(t: seq<nat>, t': seq<nat>, t'': seq<nat>, x0: nat, n: nat, f0: nat, perm: nat, k: nat, m: nat)
    requires |t| == |t'| == |t''| == NPAGES && perm < PGSIZE && m == n + k && f0 + m <= NPAGES
    requires EntriesSet(t, t', x0, n, f0, perm) && EntriesSet(t', t'', x0 + n, k, f0 + n, perm)
    ensures EntriesSet(t, t'', x0, m, f0, perm)
  {
    forall x: nat | x < NPAGES
      ensures t''[x] == if x0 <= x < x0 + m then Entry(f0 + (x - x0), perm) else t[x]
    {
      assert t'[x] == if x0 <= x < x0 + n then Entry(f0 + (x - x0), perm) else t[x];
    }
  }

  lemma UserFramesMore(x0: nat, n: nat, f0: nat, x: nat, k: nat, f: nat, m: nat)
    requires x == x0 + n && f == f0 + n && m == n + k
    ensures UserFrames(x0, m, f0) == UserFrames(x0, n, f0) + UserFrames(x, k, f)
  {
  }

  /** The frames that have left the caller's hands have a role. */
  lemma MappedRoles(v: View, v': View, d: nat, x0: nat, n: nat, f0: nat, perm: nat)
    requires Roles(v') && perm < PGSIZE && f0 + n <= NPAGES && x0 + n <= NPAGES && Mapped(v, v', d, x0, n, f0, perm)
    ensures v.held <= v'.held + v'.role.Keys
  {
    forall g: nat | g in UserFrames(x0, n, f0)
      ensures g in v'.role
    {
      assert v'.spaces[d].pte[x0 + (g - f0)] == Entry(g, perm);
    }
  }

  /** The page and the frame that are next have not been touched. */
  lemma NextUnmapped(v: View, v': View, d: nat, x0: nat, n: nat, f0: nat, perm: nat, x: nat, f: nat)
    requires perm < PGSIZE && f0 + n <= NPAGES && Mapped(v, v', d, x0, n, f0, perm) && x == x0 + n < NPAGES
      && f == f0 + n
    ensures v'.spaces[d].pte[x] == v.spaces[d].pte[x] && (f in v.held ==> f in v'.held)
  {
  }

  /** One page, if it is a user page, takes one frame. */
  lemma OneFrame(x: nat, n: nat, f: nat)
    requires n <= 1
    ensures UserFrames(x, n, f) == if n == 1 && x < KERNPAGE then {f} else {}
  {
  }

  lemma NoUserFrames(x0: nat, n: nat, f0: nat)
    requires x0 >= KERNPAGE
    ensures UserFrames(x0, n, f0) == {}
  {
    assert forall f: nat :: f !in UserFrames(x0, n, f0);
  }

  /** The directory has the same entries for the kernel's part. */
  ghost predicate SameKernelTables(t: Space, t': Space) {
    forall i: nat {:trigger t'.pde[i]} :: KERNPAGE / NPTENTRIES <= i < NPDENTRIES ==> t'.pde[i] == t.pde[i]
  }

  lemma UserTablesAdded(t: Space, t': Space, x: nat, n: nat)
    requires TablesAdded(t, t', x, n) && x < KERNPAGE && n <= 1
    ensures SameKernelTables(t, t')
  {
  }

  /** Writing an entry that was not present into a page table maps one page. */
  lemma PteMapped(v: View, w: View, d: nat, x: nat, f: nat, perm: nat)
    requires d in v.spaces && x < NPAGES && f < NPAGES && perm < PGSIZE
      && Frame(v.spaces[d].pde[x / NPTENTRIES]) < |v.mem|
    requires Present(v.spaces[d].pde[x / NPTENTRIES]) && NamesHaveRoles(v) && Apart(v) && Pool(w) == Pool(v)
    requires x < KERNPAGE ==> f in v.held
    requires w == WithPte(v, d, x, Entry(f, perm)).(held := w.held, role := w.role)
    requires if x < KERNPAGE then w.held == v.held - {f} && w.role == v.role[f := User(d, x)]
      else w.held == v.held && w.role == v.role
    ensures Mapped(v, w, d, x, 1, f, perm)
  {
    OneFrame(x, 1, f);
    var e := v.spaces[d].pde[x / NPTENTRIES];
    assert v.role[Frame(e)] == Table(d, x / NPTENTRIES);
    assert Grown(v, w, d);
    assert w.spaces[d].pde == v.spaces[d].pde;
  }

  lemma PageNumber(x: nat)
    ensures x * PGSIZE / PGSIZE == x && x * PGSIZE % PGSIZE == 0
  {
  }

  /** The pages [lo, hi) of space d have been given back; everything else is as before. */
  ghost predicate Cleared(v: View, v': View, d: nat, lo: nat, hi: nat) {
    && d in v.spaces && v'.spaces.Keys == v.spaces.Keys && Pool(v') == Pool(v) && v'.held == v.held
    && (forall e :: e in v.spaces && e != d ==> v'.spaces[e] == v.spaces[e])
    && v'.spaces[d].pde == v.spaces[d].pde
    && (forall x: nat {:trigger v'.spaces[d].pte[x]} :: x < NPAGES ==>
          v'.spaces[d].pte[x] == if lo <= x < hi then 0 else v.spaces[d].pte[x])
    && v'.role == v.role - ClearedFrames(v, d, lo, hi)
    && UsersKept(v, v')
  }

  /** The frames of the user pages [lo, hi) of space d. */
  ghost function ClearedFrames(v: View, d: nat, lo: nat, hi: nat): set<nat> {
    set f | f in v.role && v.role[f].User? && v.role[f].d == d && lo <= v.role[f].x < hi
  }

  lemma ClearedNothing(v: View, d: nat, lo: nat)
    requires Ledger(v) && d in v.spaces
    ensures Cleared(v, v, d, lo, lo)
  {
    assert ClearedFrames(v, d, lo, lo) == {};
  }

  /** Pages that are not mapped count as cleared. */
  lemma ClearedSkips(v: View, v': View, d: nat, lo: nat, x: nat, hi: nat)
    requires Ledger(v) && Cleared(v, v', d, lo, x) && lo <= x <= hi <= KERNPAGE
    requires forall y: nat :: x <= y < hi ==> !Present(v.spaces[d].pte[y])
    ensures Cleared(v, v', d, lo, hi)
  {
    forall f | f in v.role && v.role[f].User? && v.role[f].d == d
      ensures !(x <= v.role[f].x < hi)
    {
      assert HasRole(v, f);
    }
    assert ClearedFrames(v, d, lo, x) == ClearedFrames(v, d, lo, hi);
  }

  /** A page beyond the cleared ones is as it was. */
  lemma ClearedAhead(v: View, v': View, d: nat, lo: nat, x: nat, y: nat)
    requires Cleared(v, v', d, lo, x) && x <= y < NPAGES
    ensures v'.spaces[d].pte[y] == v.spaces[d].pte[y]
  {
  }

  /** Without a page table none of its pages is mapped. */
  lemma NoTableNoPages(v: View, d: nat, x: nat)
    requires Ledger(v) && d in v.spaces && x < KERNPAGE && !Present(v.spaces[d].pde[x / NPTENTRIES])
    ensures forall y: nat :: x <= y < (x / NPTENTRIES + 1) * NPTENTRIES && y < NPAGES ==> !Present(v.spaces[d].pte[y])
  {
    forall y: nat | x <= y < (x / NPTENTRIES + 1) * NPTENTRIES && y < NPAGES
      ensures !Present(v.spaces[d].pte[y])
    {
      assert y / NPTENTRIES == x / NPTENTRIES;
      assert v.spaces[d].pte[y] == Walked(v.mem, v.spaces[d].pde, y);
    }
  }

  lemma TableEnd(x: nat)
    ensures x < (x / NPTENTRIES + 1) * NPTENTRIES
  {
  }

  lemma PageBelow(x: nat, sz: nat)
    ensures x * PGSIZE < sz <==> x < Pages(sz)
  {
  }

  lemma PagesMonotone(a: nat, b: nat)
    requires a <= b
    ensures Pages(a) <= Pages(b) && (b <= KERNBASE ==> Pages(b) <= KERNPAGE)
  {
  }

  /** After page x has lost its frame f to the free frames, one more page is cleared. */
  lemma ClearedMore(v: View, v': View, v'': View, d: nat, lo: nat, x: nat)
    requires Ledger(v) && Ledger(v') && Cleared(v, v', d, lo, x) && lo <= x < KERNPAGE && Present(v'.spaces[d].pte[x])
    requires v''.spaces == v'.spaces[d := v'.spaces[d].(pte := v'.spaces[d].pte[x := 0])]
    requires v''.role == v'.role - {Frame(v'.spaces[d].pte[x])} && v''.held == v'.held && Pool(v'') == Pool(v')
    requires UsersKept(v', v'')
    ensures Cleared(v, v'', d, lo, x + 1)
  {
    var f := Frame(v.spaces[d].pte[x]);
    assert v'.spaces[d].pte[x] == v.spaces[d].pte[x];
    assert v.role[f] == User(d, x);
    forall g | g in ClearedFrames(v, d, lo, x + 1)
      ensures g == f || g in ClearedFrames(v, d, lo, x)
    {
      assert HasRole(v, g);
    }
    assert ClearedFrames(v, d, lo, x + 1) == ClearedFrames(v, d, lo, x) + {f};
  }

  /** Growing and giving the new pages back restores the old entries and every old role. */
  lemma GrownThenCleared(v: View, v': View, v'': View, d: nat, lo: nat, hi: nat)
    requires Ledger(v) && Ledger(v') && Ledger(v'') && Grown(v, v', d) && Cleared(v', v'', d, lo, hi) && hi <= KERNPAGE
    requires forall x: nat :: lo <= x < hi ==> !Present(v.spaces[d].pte[x])
    requires forall x: nat :: x < NPAGES && !(lo <= x < hi) ==> v'.spaces[d].pte[x] == v.spaces[d].pte[x]
    ensures Grown(v, v'', d) && v''.spaces[d].pte == v.spaces[d].pte
  {
    forall f | f in v.role
      ensures f in v''.role && v''.role[f] == v.role[f]
    {
      assert HasRole(v, f);
    }
    forall f | f in v''.role && f !in v.role
      ensures Belongs(v''.role[f], f, d) && f in v.free + v.held
    {
      assert f in v'.role;
    }
    forall x: nat | x < NPAGES
      ensures v''.spaces[d].pte[x] == v.spaces[d].pte[x]
    {
      if lo <= x < hi { assert v.spaces[d].pte[x] == 0; }
    }
  }

  /** Clearing all user pages leaves the directory and its tables. */
  lemma AllCleared(v: View, v': View, d: nat)
    requires Ledger(v) && Ledger(v') && Cleared(v, v', d, 0, KERNPAGE)
    ensures NoUserPages(v'.spaces[d])
    ensures FramesOf(v, d) == FramesOf(v', d) + ClearedFrames(v, d, 0, KERNPAGE)
    ensures v'.free == v.free + ClearedFrames(v, d, 0, KERNPAGE)
  {
    forall f | f in FramesOf(v, d)
      ensures f in FramesOf(v', d) || f in ClearedFrames(v, d, 0, KERNPAGE)
    {
      assert HasRole(v, f);
    }
    forall f ensures f in v'.free <==> f in v.free || f in ClearedFrames(v, d, 0, KERNPAGE) {
      assert f in Pool(v) <==> f in Pool(v');
    }
  }

  /** No page table is listed twice in a directory. */
  lemma TablesDiffer(v: View, d: nat, i: nat)
    requires Ledger(v) && d in v.spaces && i < NPDENTRIES
    ensures var t := v.spaces[d];
            if Present(t.pde[i]) then
              TablesFrom(t, i) == {Frame(t.pde[i])} + TablesFrom(t, i + 1) && Frame(t.pde[i]) !in TablesFrom(t, i + 1)
              && Frame(t.pde[i]) in v.role && v.role[Frame(t.pde[i])].Table?
            else TablesFrom(t, i) == TablesFrom(t, i + 1)
  {
    var t := v.spaces[d];
    forall k: nat | i < k < NPDENTRIES && Present(t.pde[k]) && Present(t.pde[i])
      ensures Frame(t.pde[k]) != Frame(t.pde[i])
    {
      assert v.role[Frame(t.pde[k])] == Table(d, k);
    }
  }

  lemma TablesShrink(t: Space, i: nat, k: nat)
    requires i <= k
    ensures TablesFrom(t, k) <= TablesFrom(t, i)
  {
  }

  /** The pages [lo, hi) of space d are new: zeroed frames that were free, open to the user. */
  ghost predicate Extended(v: View, v': View, d: nat, lo: nat, hi: nat) {
    && Grown(v, v', d) && SameKernelTables(v.spaces[d], v'.spaces[d])
    && (forall x: nat {:trigger v'.spaces[d].pte[x]} :: x < NPAGES ==>
          if lo <= x < hi then FreshPage(v, v', v'.spaces[d].pte[x]) else v'.spaces[d].pte[x] == v.spaces[d].pte[x])
  }

  ghost predicate FreshPage(v: View, v': View, e: nat) {
    Present(e) && Flags(e) == 7 && Frame(e) in v.free && Frame(e) < |v'.mem| && v'.mem[Frame(e)] == ZeroPage()
  }

  lemma ExtendedNothing(v: View, d: nat, lo: nat)
    requires Ledger(v) && d in v.spaces
    ensures Extended(v, v, d, lo, lo)
  {
  }

  /** A page that was new stays so. */
  lemma FreshStays(v: View, v': View, w: View, v'': View, d: nat, y: nat, e: nat)
    requires Roles(v') && d in v'.spaces && y < KERNPAGE && e == v'.spaces[d].pte[y] && FreshPage(v, v', e)
    requires Grown(v', w, d) && Grown(w, v'', d)
    ensures FreshPage(v, v'', e)
  {
    var g := Frame(e);
    assert v'.role[g] == User(d, y);
    assert w.mem[g] == v'.mem[g] && v''.mem[g] == w.mem[g];
  }

  lemma FreshMapped(v: View, w: View, v'': View, d: nat, x: nat, f: nat, e: nat)
    requires Roles(v'') && Grown(w, v'', d) && x < KERNPAGE && f < NPAGES && f in w.held && f in v.free && f < |w.mem|
      && w.mem[f] == ZeroPage()
    requires e == v''.spaces[d].pte[x] == Entry(f, 6)
    ensures FreshPage(v, v'', e)
  {
    NewEntry(f);
    assert v''.role[f] == User(d, x);
    assert v''.mem[f] == w.mem[f];
  }

  /** One more page: the frame f, which was free and has been zeroed, is mapped at page x. */
  lemma ExtendedMore(v: View, v': View, w: View, v'': View, d: nat, lo: nat, x: nat, next: nat, f: nat)
    requires Apart(v) && Roles(v') && Apart(w) && Roles(v'') && Extended(v, v', d, lo, x) && v'.held == v.held
    requires lo <= x < KERNPAGE && next == x + 1 && f in v'.free && f < |w.mem| && w.mem[f] == ZeroPage() && f < NPAGES
    requires Taking(v', w, d, f)
    requires Mapped(w, v'', d, x, 1, f, 6)
    ensures Extended(v, v'', d, lo, next) && v''.held == v.held
  {
    OneFrame(x, 1, f);
    UserTablesAdded(w.spaces[d], v''.spaces[d], x, 1);
    FreshFrame(v, v', d, f);
    GrownTwice(v, v', w, d);
    GrownTwice(v, w, v'', d);
    forall y: nat | y < NPAGES
      ensures if lo <= y < next then FreshPage(v, v'', v''.spaces[d].pte[y])
        else v''.spaces[d].pte[y] == v.spaces[d].pte[y]
    {
      var e := v''.spaces[d].pte[y];
      if lo <= y < x {
        assert e == v'.spaces[d].pte[y];
        FreshStays(v, v', w, v'', d, y, e);
      } else if y == x {
        assert e == Entry(f, 6);
        FreshMapped(v, w, v'', d, x, f, e);
      }
    }
  }

  /** The free frame f is in the caller's hands, and nothing else has changed. */
  ghost predicate Taking(v: View, w: View, d: nat, f: nat) {
    Grown(v, w, d) && w.spaces == v.spaces && w.role == v.role && w.held == v.held + {f} && f in v.free
  }

  /** Taking a free frame and filling it disturbs nothing. */
  lemma FrameTaken(v: View, w: View, d: nat, f: nat, page: Page)
    requires Apart(v) && d in v.spaces && f in v.free
    requires w == v.(free := v.free - {f}, held := v.held + {f}, mem := v.mem[f := page])
    ensures Taking(v, w, d, f)
  {
  }

  /** The frame could not be mapped. */
  lemma FreshFails(v: View, v': View, w: View, v'': View, d: nat, lo: nat, x: nat, f: nat)
    requires Apart(v) && Apart(v') && Apart(w) && Apart(v'') && Extended(v, v', d, lo, x) && v'.held == v.held
    requires f in v'.free && f < NPAGES
    requires Taking(v', w, d, f)
    requires Mapped(w, v'', d, x, 0, f, 6)
    ensures Grown(v, v'', d) && v''.spaces[d].pte == v'.spaces[d].pte && v''.held == v.held + {f}
  {
    OneFrame(x, 0, f);
    FreshFrame(v, v', d, f);
    GrownTwice(v, v', w, d);
    GrownTwice(v, w, v'', d);
  }

  lemma NewEntry(f: nat)
    requires f < NPAGES
    ensures Entry(f, 6) == f * PGSIZE + 7 && Flags(Entry(f, 6)) == 7 && Frame(Entry(f, 6)) == f && UserBit(Entry(f, 6))
  {
    EntryParts(f, 7);
    assert f * PGSIZE + 7 == 8 * (f * 512) + 7;
  }

  /** An address space is gone, and all its frames are free. */
  ghost predicate Gone(v: View, v': View, d: nat) {
    && v'.spaces == v.spaces - {d} && v'.role == v.role - FramesOf(v, d)
    && v'.held == v.held && v'.free == v.free + FramesOf(v, d) && UsersKept(v, v')
  }

  lemma GoneAtLast(v: View, v': View, v'': View, d: nat)
    requires Ledger(v) && Ledger(v') && Cleared(v, v', d, 0, KERNPAGE) && Gone(v', v'', d)
    ensures Gone(v, v'', d)
  {
    AllCleared(v, v', d);
  }

  /** Address space d is new; all its frames were free. */
  ghost predicate Added(v: View, v': View, d: nat) {
    && d !in v.spaces && d in v'.spaces && v'.spaces == v.spaces[d := v'.spaces[d]]
    && v'.held == v.held && Pool(v') == Pool(v)
    && (forall f :: f in v.role ==> f in v'.role && v'.role[f] == v.role[f])
    && (forall f :: f in v'.role && f !in v.role ==> Belongs(v'.role[f], f, d) && f in v.free)
    && UsersKept(v, v')
  }

  lemma AddedGrows(v: View, v': View, v'': View, d: nat)
    requires Apart(v) && Apart(v') && Apart(v'') && Added(v, v', d) && Grown(v', v'', d) && v''.held == v'.held
    ensures Added(v, v'', d)
  {
    forall f | f in v''.role && f !in v.role
      ensures Belongs(v''.role[f], f, d) && f in v.free
    {
      assert f in Pool(v'') && f in Pool(v);
    }
  }

  /** Everything is as before, except what is in frames that are not user pages. */
  ghost predicate Restored(v: View, v': View) {
    v'.spaces == v.spaces && v'.role == v.role && v'.held == v.held && v'.free == v.free && UsersKept(v, v')
  }

  /** Taking a new address space apart again restores the free frames exactly. */
  lemma AddedThenGone(v: View, v': View, v'': View, d: nat)
    requires Ledger(v) && Ledger(v') && Ledger(v'') && Added(v, v', d) && Gone(v', v'', d)
    ensures Restored(v, v'')
  {
    forall f
      ensures f in FramesOf(v', d) <==> f in v'.role && f !in v.role
    {
      if f in FramesOf(v', d) && f in v.role {
        assert HasRole(v, f);
      }
    }
    assert v''.role == v.role;
    forall f ensures f in v''.free <==> f in v.free {
      assert f in Pool(v') <==> f in Pool(v);
    }
    assert v''.spaces == v.spaces;
  }

  // ----- The kernel's part

  /** One line of kmap, in bytes; the size is phys_end - phys_start in 32-bit arithmetic. */
  datatype KernelRange = KernelRange(virt: nat, start: nat, end: nat, perm: nat) {
    function Size(): nat {
      (end - start) % WORD_LIMIT
    }
    predicate Has(x: nat) {
      virt / PGSIZE <= x < virt / PGSIZE + Size() / PGSIZE
    }
  }

  /** Whole pages above KERNBASE, in ascending order. */
  ghost predicate KmapOk(kmap: seq<KernelRange>) {
    && (forall k :: 0 <= k < |kmap| ==> RangeOk(kmap[k]))
    && (forall j, k :: 0 <= j < k < |kmap| ==> kmap[j].virt + kmap[j].Size() <= kmap[k].virt)
  }

  predicate RangeOk(r: KernelRange) {
    && KERNBASE <= r.virt && r.virt % PGSIZE == 0 && r.start % PGSIZE == 0 && r.Size() % PGSIZE == 0 && r.Size() > 0
    && r.virt + r.Size() <= WORD_LIMIT && r.start + r.Size() <= WORD_LIMIT && (r.perm == 0 || r.perm == PTE_W)
  }

  lemma RangePages(r: KernelRange)
    requires RangeOk(r)
    ensures KERNPAGE <= r.virt / PGSIZE && r.virt / PGSIZE + r.Size() / PGSIZE <= NPAGES
    ensures r.start / PGSIZE + r.Size() / PGSIZE <= NPAGES && r.Size() / PGSIZE > 0
    ensures r.virt / PGSIZE * PGSIZE == r.virt && r.start / PGSIZE * PGSIZE == r.start
    ensures (r.virt + r.Size() - 1) / PGSIZE == r.virt / PGSIZE + r.Size() / PGSIZE - 1
  {
  }

  /** The entry that the first k lines of kmap give to kernel page x. */
  function KernelEntry(kmap: seq<KernelRange>, k: nat, x: nat): nat
    requires k <= |kmap| && (forall j :: 0 <= j < |kmap| ==> RangeOk(kmap[j])) && x < NPAGES
  {
    if k == 0 then 0
    else if kmap[k - 1].Has(x) then
      RangePages(kmap[k - 1]);
      Entry(kmap[k - 1].start / PGSIZE + (x - kmap[k - 1].virt / PGSIZE), kmap[k - 1].perm)
    else KernelEntry(kmap, k - 1, x)
  }

  /** The first k lines of kmap are mapped, and no user page is; the directory has page tables for these lines only. */
  ghost predicate KernelOnly(kmap: seq<KernelRange>, k: nat, t: Space)
    requires k <= |kmap| && (forall j :: 0 <= j < |kmap| ==> RangeOk(kmap[j]))
  {
    && (forall x: nat {:trigger t.pte[x]} :: x < NPAGES ==>
       t.pte[x] == if x < KERNPAGE then 0 else KernelEntry(kmap, k, x))
    && KernelTables(kmap, k, t)
  }

  /**
   * The kernel's pages as the lines of kmap say: to the right frame, writable just if the line says so, closed to the
   * user; and no other page.
   */
  ghost predicate KernelMapped(kmap: seq<KernelRange>, t: Space) {
    && (forall j, x: nat :: 0 <= j < |kmap| && x < NPAGES && kmap[j].Has(x) ==>
          && Present(t.pte[x]) && Frame(t.pte[x]) == kmap[j].start / PGSIZE + x - kmap[j].virt / PGSIZE
          && (WriteBit(t.pte[x]) <==> kmap[j].perm == PTE_W) && !UserBit(t.pte[x]))
    && (forall x: nat :: x < NPAGES && (forall j :: 0 <= j < |kmap| ==> !kmap[j].Has(x)) ==> t.pte[x] == 0)
  }

  lemma KernelIsMapped(kmap: seq<KernelRange>, t: Space)
    requires KmapOk(kmap) && KernelOnly(kmap, |kmap|, t)
    ensures KernelMapped(kmap, t)
  {
    forall j, x: nat | 0 <= j < |kmap| && x < NPAGES && kmap[j].Has(x)
      ensures Present(t.pte[x]) && Frame(t.pte[x]) == kmap[j].start / PGSIZE + x - kmap[j].virt / PGSIZE
      ensures (WriteBit(t.pte[x]) <==> kmap[j].perm == PTE_W) && !UserBit(t.pte[x])
    {
      RangePages(kmap[j]);
      KernelEntryOfLine(kmap, |kmap|, j, x, t.pte[x]);
    }
    forall x: nat | x < NPAGES && (forall j :: 0 <= j < |kmap| ==> !kmap[j].Has(x))
      ensures t.pte[x] == 0
    {
      KernelEntryOfNone(kmap, |kmap|, x);
    }
  }

  lemma {:induction false} KernelEntryOfLine(kmap: seq<KernelRange>, k: nat, j: nat, x: nat, w: nat)
    requires KmapOk(kmap) && j < k <= |kmap| && x < NPAGES && kmap[j].Has(x) && w == KernelEntry(kmap, k, x)
    ensures Present(w) && Frame(w) == kmap[j].start / PGSIZE + x - kmap[j].virt / PGSIZE
    ensures (WriteBit(w) <==> kmap[j].perm == PTE_W) && !UserBit(w)
  {
    var r := kmap[k - 1];
    RangePages(r);
    if j == k - 1 {
      var f := r.start / PGSIZE + (x - r.virt / PGSIZE);
      EntryGrants(f, r.perm);
      GrantedRights(w, f, r.perm);
    } else {
      RangePages(kmap[j]);
      assert kmap[j].virt + kmap[j].Size() <= r.virt;
      KernelEntryOfLine(kmap, k - 1, j, x, w);
    }
  }

  lemma {:induction false} KernelEntryOfNone(kmap: seq<KernelRange>, k: nat, x: nat)
    requires KmapOk(kmap) && k <= |kmap| && x < NPAGES && forall j :: 0 <= j < k ==> !kmap[j].Has(x)
    ensures KernelEntry(kmap, k, x) == 0
  {
    if k > 0 {
      KernelEntryOfNone(kmap, k - 1, x);
    }
  }

  /** Some page of the first k lines of kmap needs directory entry i. */
  predicate Meets(kmap: seq<KernelRange>, k: nat, i: nat)
    requires k <= |kmap|
  {
    k > 0 && (InSlots(kmap[k - 1].virt / PGSIZE, kmap[k - 1].Size() / PGSIZE, i) || Meets(kmap, k - 1, i))
  }

  /** In the kernel's part, there is a page table just where the first k lines of kmap need one. */
  ghost predicate KernelTables(kmap: seq<KernelRange>, k: nat, t: Space)
    requires k <= |kmap|
  {
    forall i: nat {:trigger t.pde[i]} :: KERNPAGE / NPTENTRIES <= i < NPDENTRIES ==>
      (Present(t.pde[i]) <==> Meets(kmap, k, i))
  }

  /** The pages of the next line are still unmapped: kmap's lines do not overlap. */
  lemma {:induction false} NextRangeFree(kmap: seq<KernelRange>, k: nat, j: nat, x: nat)
    requires KmapOk(kmap) && k <= j < |kmap| && kmap[j].Has(x) && x < NPAGES
    ensures KernelEntry(kmap, k, x) == 0
  {
    if k > 0 {
      RangePages(kmap[k - 1]);
      RangePages(kmap[j]);
      assert kmap[k - 1].virt + kmap[k - 1].Size() <= kmap[j].virt;
      NextRangeFree(kmap, k - 1, j, x);
    }
  }

  lemma LineUnmapped(kmap: seq<KernelRange>, k: nat, t: Space)
    requires KmapOk(kmap) && k < |kmap| && KernelOnly(kmap, k, t)
    ensures forall x: nat :: kmap[k].Has(x) && x < NPAGES ==> !Present(t.pte[x])
  {
    RangePages(kmap[k]);
    forall x: nat | kmap[k].Has(x) && x < NPAGES
      ensures !Present(t.pte[x])
    {
      NextRangeFree(kmap, k, k, x);
      assert t.pte[x] == if x < KERNPAGE then 0 else KernelEntry(kmap, k, x);
    }
  }

  lemma KernelOnlyMore(kmap: seq<KernelRange>, k: nat, v: View, v': View, d: nat)
    requires KmapOk(kmap) && k < |kmap| && d in v.spaces && KernelOnly(kmap, k, v.spaces[d])
    requires kmap[k].perm < PGSIZE && kmap[k].start / PGSIZE + kmap[k].Size() / PGSIZE <= NPAGES
    requires Mapped(v, v', d, kmap[k].virt / PGSIZE, kmap[k].Size() / PGSIZE, kmap[k].start / PGSIZE, kmap[k].perm)
    ensures KernelOnly(kmap, k + 1, v'.spaces[d])
  {
    RangePages(kmap[k]);
    forall x: nat | x < NPAGES
      ensures v'.spaces[d].pte[x] == if x < KERNPAGE then 0 else KernelEntry(kmap, k + 1, x)
    {
      assert v.spaces[d].pte[x] == if x < KERNPAGE then 0 else KernelEntry(kmap, k, x);
    }
  }

  // ----- Copies

  /**
   * The first n user pages of d are copies of those of s in frames that
   * were free; above them is nothing but the kernel.
   */
  ghost predicate CopiedTo(kmap: seq<KernelRange>, v: View, v': View, s: nat, d: nat, n: nat)
    requires forall j :: 0 <= j < |kmap| ==> RangeOk(kmap[j])
  {
    && s in v.spaces && d in v'.spaces && n <= KERNPAGE
    && forall x: nat {:trigger v'.spaces[d].pte[x]} :: x < NPAGES ==>
         if x < n then CopyOf(v, v', v.spaces[s].pte[x], v'.spaces[d].pte[x])
         else v'.spaces[d].pte[x] == if x < KERNPAGE then 0 else KernelEntry(kmap, |kmap|, x)
  }

  /** Entry e' names a fresh frame with the contents and the flags of entry e. */
  ghost predicate CopyOf(v: View, v': View, e: nat, e': nat) {
    && Present(e') && Flags(e') == Flags(e) && Frame(e') in v.free && Frame(e') < |v'.mem| && Frame(e) < |v.mem|
    && v'.mem[Frame(e')] == v.mem[Frame(e)]
  }

  /** Every page is copied once it is mapped: what follows for the whole copy. */
  lemma CopyIsApart(kmap: seq<KernelRange>, v: View, v': View, s: nat, d: nat, sz: nat)
    requires KmapOk(kmap) && Ledger(v) && Ledger(v') && Added(v, v', d) && CopiedTo(kmap, v, v', s, d, Pages(sz))
    requires Sized(v.spaces[s], sz)
    ensures Sized(v'.spaces[d], sz)
    ensures forall x: nat, y: nat :: x < Pages(sz) && y < Pages(sz) ==>
              Frame(v'.spaces[d].pte[x]) != Frame(v'.spaces[s].pte[y])
                && (x != y ==> Frame(v'.spaces[d].pte[x]) != Frame(v'.spaces[d].pte[y]))
    ensures forall x: nat :: x < Pages(sz) ==>
              Frame(v.spaces[s].pte[x]) < |v.mem| && PageAt(v', d, x) == PageAt(v, s, x)
                && Flags(v'.spaces[d].pte[x]) == Flags(v.spaces[s].pte[x])
  {
    assert v'.spaces[s] == v.spaces[s];
    forall x: nat | x < KERNPAGE
      ensures Present(v'.spaces[d].pte[x]) <==> x < Pages(sz)
      ensures x < Pages(sz) ==>
        CopyOf(v, v', v.spaces[s].pte[x], v'.spaces[d].pte[x]) && v'.role[Frame(v'.spaces[d].pte[x])] == User(d, x)
      ensures x < Pages(sz) ==> v.role[Frame(v.spaces[s].pte[x])] == User(s, x)
    {
    }
  }

  lemma SourceKept(v: View, v': View, s: nat, d: nat, x: nat)
    requires Ledger(v) && Added(v, v', d) && s in v.spaces && x < KERNPAGE && Present(v.spaces[s].pte[x])
    ensures v'.spaces[s] == v.spaces[s] && Frame(v.spaces[s].pte[x]) < |v.mem| == |v'.mem|
    ensures v'.mem[Frame(v.spaces[s].pte[x])] == v.mem[Frame(v.spaces[s].pte[x])]
  {
    assert v.role[Frame(v.spaces[s].pte[x])] == User(s, x);
  }

  lemma PageCopied(kmap: seq<KernelRange>, v: View, v': View, w: View, v'': View, s: nat, d: nat, x: nat, next: nat,
                   f: nat)
    requires KmapOk(kmap) && Apart(v) && Roles(v') && Apart(w) && Roles(v'')
    requires Added(v, v', d) && CopiedTo(kmap, v, v', s, d, x) && x < KERNPAGE && Present(v.spaces[s].pte[x])
      && next == x + 1
    requires f in v'.free && f < NPAGES && f < |w.mem| && Frame(v.spaces[s].pte[x]) < |v.mem|
      && w.mem[f] == v.mem[Frame(v.spaces[s].pte[x])]
    requires Taking(v', w, d, f)
    requires Mapped(w, v'', d, x, 1, f, Flags(v.spaces[s].pte[x]))
    ensures Added(v, v'', d) && CopiedTo(kmap, v, v'', s, d, next)
  {
    OneFrame(x, 1, f);
    GrownTwice(v', w, v'', d);
    AddedGrows(v, v', v'', d);
    FlagsPresent(v.spaces[s].pte[x]);
    NewCopy(v, v', w, v'', s, d, x, f);
    forall y: nat | y < NPAGES
      ensures if y < next then CopyOf(v, v'', v.spaces[s].pte[y], v''.spaces[d].pte[y])
              else v''.spaces[d].pte[y] == if y < KERNPAGE then 0 else KernelEntry(kmap, |kmap|, y)
    {
      assert y != x ==> v''.spaces[d].pte[y] == v'.spaces[d].pte[y];
      if y < x {
        CopyStays(v, v', v'', s, d, y);
      }
    }
  }

  /** The copy could not be mapped. */
  lemma CopyFails(v': View, w: View, v'': View, d: nat, x: nat, f: nat, perm: nat)
    requires Apart(v') && Apart(w) && Apart(v'') && perm < PGSIZE && f < NPAGES
    requires Taking(v', w, d, f) && Mapped(w, v'', d, x, 0, f, perm)
    ensures Grown(v', v'', d) && v''.held == v'.held + {f}
  {
    OneFrame(x, 0, f);
    GrownTwice(v', w, v'', d);
  }

  lemma FlagsPresent(e: nat)
    ensures Present(Flags(e)) <==> Present(e)
  {
    EntryParts(e / PGSIZE, e % PGSIZE);
  }

  lemma CopyStays(v: View, v': View, v'': View, s: nat, d: nat, y: nat)
    requires Roles(v') && Grown(v', v'', d) && y < KERNPAGE && s in v.spaces && d in v'.spaces
    requires CopyOf(v, v', v.spaces[s].pte[y], v'.spaces[d].pte[y]) && v''.spaces[d].pte[y] == v'.spaces[d].pte[y]
    ensures CopyOf(v, v'', v.spaces[s].pte[y], v''.spaces[d].pte[y])
  {
    var f := Frame(v'.spaces[d].pte[y]);
    assert v'.role[f] == User(d, y);
    assert v''.mem[f] == v'.mem[f];
  }

  lemma NewCopy(v: View, v': View, w: View, v'': View, s: nat, d: nat, x: nat, f: nat)
    requires Apart(v) && Apart(v') && Roles(v'') && Added(v, v', d) && s in v.spaces && x < KERNPAGE
      && Present(Flags(v.spaces[s].pte[x]))
    requires f in v'.free && f < NPAGES && f < |w.mem| && Frame(v.spaces[s].pte[x]) < |v.mem|
      && w.mem[f] == v.mem[Frame(v.spaces[s].pte[x])]
    requires w.held == v'.held + {f} && Mapped(w, v'', d, x, 1, f, Flags(v.spaces[s].pte[x]))
    ensures CopyOf(v, v'', v.spaces[s].pte[x], v''.spaces[d].pte[x])
  {
    assert f in Pool(v') && f in Pool(v);
    assert v''.spaces[d].pte[x] == Entry(f, Flags(v.spaces[s].pte[x])) && v''.role[f] == User(d, x);
    assert v''.mem[f] == w.mem[f];
  }
}
