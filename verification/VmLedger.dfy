/** Who owns which physical frame: page directories, page tables and user pages against the free frames. */
module VmLedger {
  import opened Bytes

  const PGSIZE: nat := 4096
  const NPDENTRIES: nat := 1024
  const NPTENTRIES: nat := 1024
  const NPAGES: nat := 1048576        // virtual pages
  const KERNBASE: nat := 0x8000_0000
  const KERNPAGE: nat := 524288       // KERNBASE / PGSIZE

  type Page = s: seq<byte> | |s| == PGSIZE witness seq(PGSIZE, i => 0)

  function ZeroPage(): (z: Page)
    ensures forall i :: 0 <= i < PGSIZE ==> z[i] == 0
  {
    seq(PGSIZE, i => 0)
  }

  lemma ZeroWords()
    ensures forall i: nat :: i < NPTENTRIES ==> GetWord(ZeroPage(), i) == 0
  {
  }

  // ----- Entries of page directories and page tables

  predicate Present(w: nat) {
    w % 2 == 1
  }

  /** PTE_ADDR, as a frame number. */
  function Frame(w: nat): nat {
    w / PGSIZE
  }

  function Flags(w: nat): nat {
    w % PGSIZE
  }

  const PTE_W: nat := 2
  const PTE_U: nat := 4

  predicate UserBit(w: nat) {
    w / 4 % 2 == 1
  }

  /** A present entry for frame f, with the given flags. */
  function Entry(f: nat, perm: nat): (w: nat)
    requires f < NPAGES && perm < PGSIZE
    ensures w < WORD_LIMIT && Present(w) && Frame(w) == f
    ensures Present(perm) ==> Flags(w) == perm
  {
    var low := if perm % 2 == 1 then perm else perm + 1;
    EntryParts(f, low);
    f * PGSIZE + low
  }

  predicate WriteBit(w: nat) {
    w / 2 % 2 == 1
  }

  /** The entry maps frame f, and each flag bit of it but the present bit is the one of perm. */
  ghost predicate Grants(w: nat, f: nat, perm: nat) {
    Present(w) && Frame(w) == f && forall k: nat :: 1 <= k < 12 ==> (Bit(w, k) <==> Bit(perm, k))
  }

  lemma EntryGrants(f: nat, perm: nat)
    requires f < NPAGES && perm < PGSIZE
    ensures Grants(Entry(f, perm), f, perm)
  {
    var low := if perm % 2 == 1 then perm else perm + 1;
    forall k: nat | 1 <= k < 12
      ensures Bit(Entry(f, perm), k) <==> Bit(perm, k)
    {
      LowBits(f, low, 12, k);
      assert Pow2(12) == 4096 by { assert Pow2(6) == 64; }
      assert low / 2 == perm / 2;
    }
  }

  /** The rights in the entry are those in perm. */
  lemma GrantedRights(w: nat, f: nat, perm: nat)
    requires Grants(w, f, perm)
    ensures WriteBit(w) <==> WriteBit(perm)
    ensures UserBit(w) <==> UserBit(perm)
  {
    assert Bit(w, 1) <==> Bit(perm, 1);
    assert Bit(w, 2) <==> Bit(perm, 2);
    HighBits(w);
    HighBits(perm);
  }

  lemma HighBits(w: nat)
    ensures (Bit(w, 1) <==> WriteBit(w)) && (Bit(w, 2) <==> UserBit(w))
  {
    assert w / 2 / 2 == w / 4;
  }

  /** Clearing one bit of an entry leaves every other flag, and the frame. */
  lemma OnlyUserCleared(w: nat)
    ensures !Bit(WithoutUser(w), 2) && forall k: nat :: k != 2 ==> (Bit(WithoutUser(w), k) <==> Bit(w, k))
  {
    assert WithoutUser(w) == Lower(w, 2) by {
      assert Lower(w, 2) == 2 * Lower(w / 2, 1) + w % 2 && Lower(w / 2, 1) == 2 * Lower(w / 4, 0) + w / 2 % 2;
    }
    forall k: nat { UpdatesOneBit(w, 2, k); }
  }

  lemma EntryParts(f: nat, low: nat)
    requires low < PGSIZE
    ensures (f * PGSIZE + low) / PGSIZE == f && (f * PGSIZE + low) % PGSIZE == low && (f * PGSIZE + low) % 2 == low % 2
  {
    assert f * PGSIZE + low == 2 * (f * 2048) + low;
  }

  /** The entry with the page closed to the user. */
  function WithoutUser(w: nat): (u: nat)
    ensures u <= w && Frame(u) == Frame(w) && (Present(u) <==> Present(w)) && !UserBit(u)
  {
    if UserBit(w) then w - PTE_U else w
  }

  // ----- Address spaces

  /** What a page directory says: its entries, and the entry that each virtual page finds through it (0 if none). */
  datatype Tables = Tables(pde: seq<nat>, pte: seq<nat>)
  type Space = t: Tables | |t.pde| == NPDENTRIES && |t.pte| == NPAGES
    witness Tables(seq(NPDENTRIES, i => 0), seq(NPAGES, i => 0))

  function EmptySpace(): (t: Space)
    ensures (forall i :: 0 <= i < NPDENTRIES ==> t.pde[i] == 0) && forall x :: 0 <= x < NPAGES ==> t.pte[x] == 0
  {
    Tables(seq(NPDENTRIES, i => 0), seq(NPAGES, i => 0))
  }

  /** Why a frame is not free. */
  datatype Role = Dir | Table(d: nat, i: nat) | User(d: nat, x: nat)

  /**
   * Memory, the free frames, those just allocated that nothing points
   * to yet, the address spaces, and all other frames' roles.
   */
  datatype View = View(mem: seq<Page>, free: set<nat>, held: set<nat>, spaces: map<nat, Space>, role: map<nat, Role>)

  /** The page-table entry of virtual page x, as the hardware walks to it. */
  function Walked(mem: seq<Page>, pde: seq<nat>, x: nat): nat
    requires |pde| == NPDENTRIES && x < NPAGES
  {
    var e := pde[x / NPTENTRIES];
    if Present(e) && Frame(e) < |mem| then GetWord(mem[Frame(e)], x % NPTENTRIES) else 0
  }

  /** The bytes in memory say what the abstract spaces say. */
  ghost predicate Represents(v: View) {
    && |v.mem| <= NPAGES
    && (forall d {:trigger d in v.spaces} :: d in v.spaces ==> d < |v.mem|)
    && (forall d, i: nat {:trigger GetWord(v.mem[d], i)} :: d in v.spaces && i < NPDENTRIES ==>
          v.spaces[d].pde[i] == GetWord(v.mem[d], i))
    && (forall d, x: nat {:trigger Walked(v.mem, v.spaces[d].pde, x)} :: d in v.spaces && x < NPAGES ==>
          v.spaces[d].pte[x] == Walked(v.mem, v.spaces[d].pde, x))
  }

  ghost predicate HasRole(v: View, f: nat) {
    f in v.role
  }

  /** Every frame that some entry names has just the role of that entry, and entries that are not present are zero. */
  ghost predicate NamesHaveRoles(v: View) {
    && (forall d {:trigger d in v.spaces} :: d in v.spaces ==> d in v.role && v.role[d] == Dir)
    && (forall d, i: nat {:trigger v.role[Frame(v.spaces[d].pde[i])]} {:trigger Present(v.spaces[d].pde[i])} ::
       d in v.spaces && i < NPDENTRIES ==>
          var e := v.spaces[d].pde[i];
          if Present(e) then Frame(e) in v.role && v.role[Frame(e)] == Table(d, i) else e == 0)
    && (forall d, x: nat {:trigger v.role[Frame(v.spaces[d].pte[x])]} {:trigger Present(v.spaces[d].pte[x])} ::
       d in v.spaces && x < KERNPAGE ==>
          var e := v.spaces[d].pte[x];
          if Present(e) then Frame(e) in v.role && v.role[Frame(e)] == User(d, x) else e == 0)
  }

  /** Every role belongs to some entry. */
  ghost predicate RolesAreNamed(v: View) {
    forall f {:trigger HasRole(v, f)} :: HasRole(v, f) ==> RoleNamed(v, f, v.role[f])
  }

  ghost predicate RoleNamed(v: View, f: nat, r: Role) {
    match r
    case Dir => f in v.spaces
    case Table(d, i) => d in v.spaces && i < NPDENTRIES && Present(v.spaces[d].pde[i]) && Frame(v.spaces[d].pde[i]) == f
    case User(d, x) => d in v.spaces && x < KERNPAGE && Present(v.spaces[d].pte[x]) && Frame(v.spaces[d].pte[x]) == f
  }

  /** No frame is counted twice; frame 0 is never handed out. */
  ghost predicate Apart(v: View) {
    && v.free !! v.held && v.free !! v.role.Keys && v.held !! v.role.Keys
    && (forall f :: f in v.free ==> 0 < f < |v.mem|)
    && (forall f :: f in v.held ==> 0 < f < |v.mem|)
    && (forall f :: f in v.role ==> 0 < f < |v.mem|)
  }

  ghost predicate Roles(v: View) {
    NamesHaveRoles(v) && Apart(v)
  }

  /** All the frames that kalloc deals in. */
  ghost function Pool(v: View): set<nat> {
    v.free + v.held + v.role.Keys
  }

  /** What holds at every moment of every operation. */
  ghost predicate Ledger(v: View) {
    Represents(v) && NamesHaveRoles(v) && RolesAreNamed(v) && Apart(v)
  }

  /** The frames of an address space. */
  ghost function FramesOf(v: View, d: nat): set<nat> {
    set f | f in v.role && Belongs(v.role[f], f, d)
  }

  ghost predicate Belongs(r: Role, f: nat, d: nat) {
    match r
    case Dir => f == d
    case Table(e, _) => e == d
    case User(e, _) => e == d
  }

  // ----- Steps

  /** A frame that is neither a directory nor a table may get any contents. */
  lemma LedgerKeepsPage(v: View, f: nat, page: Page)
    requires Ledger(v) && f < |v.mem| && (f in v.role ==> v.role[f].User?)
    ensures Ledger(v.(mem := v.mem[f := page]))
  {
    var w := v.(mem := v.mem[f := page]);
    forall d, x: nat | d in w.spaces && x < NPAGES
      ensures w.spaces[d].pte[x] == Walked(w.mem, w.spaces[d].pde, x)
    {
      var e := v.spaces[d].pde[x / NPTENTRIES];
      assert v.spaces[d].pte[x] == Walked(v.mem, v.spaces[d].pde, x);
    }
    forall d, i: nat | d in w.spaces && i < NPDENTRIES
      ensures w.spaces[d].pde[i] == GetWord(w.mem[d], i)
    {
      assert v.spaces[d].pde[i] == GetWord(v.mem[d], i);
    }
    assert RolesAreNamed(w) by {
      forall g | HasRole(w, g) ensures RoleNamed(w, g, w.role[g]) { assert HasRole(v, g); }
    }
  }

  lemma LedgerFrees(v: View, f: nat)
    requires Ledger(v) && f in v.held
    ensures var v' := v.(free := v.free + {f}, held := v.held - {f}); Ledger(v') && Pool(v') == Pool(v)
  {
    var v' := v.(free := v.free + {f}, held := v.held - {f});
    forall g | HasRole(v', g) ensures RoleNamed(v', g, v'.role[g]) { assert HasRole(v, g); }
  }

  lemma LedgerAllocates(v: View, f: nat)
    requires Ledger(v) && f in v.free
    ensures var v' := v.(free := v.free - {f}, held := v.held + {f}); Ledger(v') && Pool(v') == Pool(v)
  {
    var v' := v.(free := v.free - {f}, held := v.held + {f});
    forall g | HasRole(v', g) ensures RoleNamed(v', g, v'.role[g]) { assert HasRole(v, g); }
  }

  /** The view after entry i of directory d has been pointed at the zeroed frame t. */
  ghost function WithTable(v: View, d: nat, i: nat, t: nat): View
    requires d in v.spaces && d < |v.mem| && t < |v.mem| && t < NPAGES && i < NPDENTRIES
  {
    View(v.mem[t := ZeroPage()][d := PutWord(v.mem[d], i, Entry(t, 7))], v.free, v.held - {t},
         v.spaces[d := v.spaces[d].(pde := v.spaces[d].pde[i := Entry(t, 7)])], v.role[t := Table(d, i)])
  }

  lemma LedgerTakesTable(v: View, d: nat, i: nat, t: nat)
    requires Ledger(v) && d in v.spaces && i < NPDENTRIES && !Present(v.spaces[d].pde[i]) && t in v.held
    ensures d < |v.mem| && t < |v.mem| && t < NPAGES
    ensures Ledger(WithTable(v, d, i, t)) && Pool(WithTable(v, d, i, t)) == Pool(v)
  {
    assert t in Pool(v);
    var w := WithTable(v, d, i, t);
    ZeroWords();
    forall e, x: nat | e in w.spaces && x < NPAGES
      ensures w.spaces[e].pte[x] == Walked(w.mem, w.spaces[e].pde, x)
    {
      assert v.spaces[e].pte[x] == Walked(v.mem, v.spaces[e].pde, x);
      var y := v.spaces[e].pde[x / NPTENTRIES];
      assert Present(y) ==> Frame(y) in v.role;
    }
    forall e, k: nat | e in w.spaces && k < NPDENTRIES
      ensures w.spaces[e].pde[k] == GetWord(w.mem[e], k)
    {
      assert v.spaces[e].pde[k] == GetWord(v.mem[e], k);
    }
    forall f | HasRole(w, f) ensures RoleNamed(w, f, w.role[f]) { assert f != t ==> HasRole(v, f); }
  }

  /** The view after the entry of page x has been set to w. */
  ghost function WithPte(v: View, d: nat, x: nat, w: nat): View
    requires d in v.spaces && x < NPAGES && w < WORD_LIMIT && Frame(v.spaces[d].pde[x / NPTENTRIES]) < |v.mem|
  {
    var t := Frame(v.spaces[d].pde[x / NPTENTRIES]);
    v.(mem := v.mem[t := PutWord(v.mem[t], x % NPTENTRIES, w)],
       spaces := v.spaces[d := v.spaces[d].(pte := v.spaces[d].pte[x := w])])
  }

  /** Writing one entry of a page table changes what one page of one space finds, and nothing else. */
  lemma WriteChangesOneEntry(v: View, d: nat, x: nat, w: nat)
    requires Ledger(v) && d in v.spaces && x < NPAGES && w < WORD_LIMIT && Present(v.spaces[d].pde[x / NPTENTRIES])
    ensures Frame(v.spaces[d].pde[x / NPTENTRIES]) in v.role && Frame(v.spaces[d].pde[x / NPTENTRIES]) < |v.mem|
    ensures Represents(WithPte(v, d, x, w))
  {
    var t := Frame(v.spaces[d].pde[x / NPTENTRIES]);
    assert t in Pool(v);
    var v' := WithPte(v, d, x, w);
    forall e, y: nat | e in v'.spaces && y < NPAGES
      ensures v'.spaces[e].pte[y] == Walked(v'.mem, v'.spaces[e].pde, y)
    {
      assert v.spaces[e].pte[y] == Walked(v.mem, v.spaces[e].pde, y);
      var z := v.spaces[e].pde[y / NPTENTRIES];
      if Present(z) && Frame(z) == t {
        assert v.role[t] == Table(e, y / NPTENTRIES) == Table(d, x / NPTENTRIES);
        SamePage(x, y);
      }
    }
    forall e, k: nat | e in v'.spaces && k < NPDENTRIES
      ensures v'.spaces[e].pde[k] == GetWord(v'.mem[e], k)
    {
      assert v.spaces[e].pde[k] == GetWord(v.mem[e], k);
      assert e != t;
    }
  }

  lemma SamePage(x: nat, y: nat)
    ensures x / NPTENTRIES == y / NPTENTRIES && x % NPTENTRIES == y % NPTENTRIES ==> x == y
  {
  }

  /** A frame that nothing points to yet gets the role of user page x together with an entry that names it. */
  lemma RolesTakeUser(v: View, d: nat, x: nat, w: nat, mem: seq<Page>)
    requires NamesHaveRoles(v) && RolesAreNamed(v) && d in v.spaces && x < KERNPAGE
    requires Present(w) && Frame(w) !in v.role && !Present(v.spaces[d].pte[x])
    ensures var v' := v.(mem := mem, spaces := v.spaces[d := v.spaces[d].(pte := v.spaces[d].pte[x := w])],
                         held := v.held - {Frame(w)}, role := v.role[Frame(w) := User(d, x)]);
            NamesHaveRoles(v') && RolesAreNamed(v')
  {
    var f := Frame(w);
    var v' := v.(mem := mem, spaces := v.spaces[d := v.spaces[d].(pte := v.spaces[d].pte[x := w])],
                 held := v.held - {f}, role := v.role[f := User(d, x)]);
    forall g | HasRole(v', g) ensures RoleNamed(v', g, v'.role[g]) { assert g != f ==> HasRole(v, g); }
  }

  /** A held frame becomes user page x. */
  lemma LedgerMapsUser(v: View, d: nat, x: nat, f: nat, perm: nat)
    requires Ledger(v) && d in v.spaces && x < KERNPAGE && Present(v.spaces[d].pde[x / NPTENTRIES])
    requires f in v.held && perm < PGSIZE && !Present(v.spaces[d].pte[x])
    ensures f < NPAGES && Frame(v.spaces[d].pde[x / NPTENTRIES]) < |v.mem|
    ensures var v' := WithPte(v, d, x, Entry(f, perm)).(held := v.held - {f}, role := v.role[f := User(d, x)]);
            Ledger(v') && Pool(v') == Pool(v)
  {
    WriteChangesOneEntry(v, d, x, Entry(f, perm));
    RolesTakeUser(v, d, x, Entry(f, perm), WithPte(v, d, x, Entry(f, perm)).mem);
  }

  /** Entries above KERNBASE give no frame a role. */
  lemma LedgerMapsKernel(v: View, d: nat, x: nat, w: nat)
    requires Ledger(v) && d in v.spaces && KERNPAGE <= x < NPAGES && Present(v.spaces[d].pde[x / NPTENTRIES])
      && w < WORD_LIMIT
    ensures Frame(v.spaces[d].pde[x / NPTENTRIES]) < |v.mem|
    ensures Ledger(WithPte(v, d, x, w)) && Pool(WithPte(v, d, x, w)) == Pool(v)
  {
    WriteChangesOneEntry(v, d, x, w);
    var v' := WithPte(v, d, x, w);
    forall g | HasRole(v', g) ensures RoleNamed(v', g, v'.role[g]) { assert HasRole(v, g); }
  }

  lemma RolesLoseUser(v: View, d: nat, x: nat, mem: seq<Page>)
    requires NamesHaveRoles(v) && RolesAreNamed(v) && d in v.spaces && x < KERNPAGE && Present(v.spaces[d].pte[x])
    ensures var f := Frame(v.spaces[d].pte[x]);
            && f in v.role && v.role[f] == User(d, x)
            && var v' := v.(mem := mem, spaces := v.spaces[d := v.spaces[d].(pte := v.spaces[d].pte[x := 0])],
                            held := v.held + {f}, role := v.role - {f});
               NamesHaveRoles(v') && RolesAreNamed(v')
  {
    var f := Frame(v.spaces[d].pte[x]);
    var v' := v.(mem := mem, spaces := v.spaces[d := v.spaces[d].(pte := v.spaces[d].pte[x := 0])],
                 held := v.held + {f}, role := v.role - {f});
    forall g | HasRole(v', g) ensures RoleNamed(v', g, v'.role[g]) { assert HasRole(v, g); }
  }

  /** User page x gives its frame up. */
  lemma LedgerUnmaps(v: View, d: nat, x: nat)
    requires Ledger(v) && d in v.spaces && x < KERNPAGE && Present(v.spaces[d].pte[x])
    ensures var f := Frame(v.spaces[d].pte[x]);
            && Present(v.spaces[d].pde[x / NPTENTRIES]) && Frame(v.spaces[d].pde[x / NPTENTRIES]) < |v.mem|
            && f in v.role && v.role[f] == User(d, x)
            && var v' := WithPte(v, d, x, 0).(held := v.held + {f}, role := v.role - {f});
               Ledger(v') && Pool(v') == Pool(v)
  {
    assert v.spaces[d].pte[x] == Walked(v.mem, v.spaces[d].pde, x);
    WriteChangesOneEntry(v, d, x, 0);
    RolesLoseUser(v, d, x, WithPte(v, d, x, 0).mem);
  }

  /** Changing the flags of a present entry changes no role. */
  lemma LedgerKeepsFrame(v: View, d: nat, x: nat, w: nat)
    requires Ledger(v) && d in v.spaces && x < NPAGES && Present(v.spaces[d].pde[x / NPTENTRIES]) && w < WORD_LIMIT
    requires (Present(w) <==> Present(v.spaces[d].pte[x])) && Frame(w) == Frame(v.spaces[d].pte[x])
      && (!Present(w) ==> w == 0)
    ensures Frame(v.spaces[d].pde[x / NPTENTRIES]) < |v.mem|
    ensures Ledger(WithPte(v, d, x, w))
  {
    WriteChangesOneEntry(v, d, x, w);
    var v' := WithPte(v, d, x, w);
    forall g | HasRole(v', g) ensures RoleNamed(v', g, v'.role[g]) { assert HasRole(v, g); }
  }

  lemma RolesTakeDir(v: View, f: nat)
    requires NamesHaveRoles(v) && RolesAreNamed(v) && f !in v.spaces && f !in v.role
    ensures var v' := v.(held := v.held - {f}, spaces := v.spaces[f := EmptySpace()], role := v.role[f := Dir]);
            NamesHaveRoles(v') && RolesAreNamed(v')
  {
    var v' := v.(held := v.held - {f}, spaces := v.spaces[f := EmptySpace()], role := v.role[f := Dir]);
    forall g | HasRole(v', g) ensures RoleNamed(v', g, v'.role[g]) { assert g != f ==> HasRole(v, g); }
  }

  /** A held, zeroed frame becomes an empty address space. */
  lemma LedgerAddsSpace(v: View, f: nat)
    requires Ledger(v) && f in v.held && f < |v.mem| && v.mem[f] == ZeroPage()
    ensures f !in v.spaces
    ensures var v' := v.(held := v.held - {f}, spaces := v.spaces[f := EmptySpace()], role := v.role[f := Dir]);
            Ledger(v') && Pool(v') == Pool(v)
  {
    ZeroWords();
    RolesTakeDir(v, f);
    var v' := v.(held := v.held - {f}, spaces := v.spaces[f := EmptySpace()], role := v.role[f := Dir]);
    forall d, x: nat | d in v'.spaces && x < NPAGES
      ensures v'.spaces[d].pte[x] == Walked(v'.mem, v'.spaces[d].pde, x)
    {
      if d != f { assert v.spaces[d].pte[x] == Walked(v.mem, v.spaces[d].pde, x); }
    }
    forall d, i: nat | d in v'.spaces && i < NPDENTRIES
      ensures v'.spaces[d].pde[i] == GetWord(v'.mem[d], i)
    {
      if d != f { assert v.spaces[d].pde[i] == GetWord(v.mem[d], i); }
    }
  }

  /** No user page is mapped. */
  ghost predicate NoUserPages(t: Space) {
    forall x: nat :: x < KERNPAGE ==> !Present(t.pte[x])
  }

  ghost function Dropped(v: View, d: nat): View {
    v.(held := v.held + FramesOf(v, d), spaces := v.spaces - {d}, role := v.role - FramesOf(v, d))
  }

  /** The tables of a directory, without its user pages. */
  ghost function TablesFrom(t: Space, i: nat): set<nat> {
    set k: nat | i <= k < NPDENTRIES && Present(t.pde[k]) :: Frame(t.pde[k])
  }

  /** An address space without user pages is given up: its directory and its tables are in hand. */
  lemma LedgerDropsSpace(v: View, d: nat)
    requires Ledger(v) && d in v.spaces && NoUserPages(v.spaces[d])
    ensures Ledger(Dropped(v, d)) && Pool(Dropped(v, d)) == Pool(v)
    ensures FramesOf(v, d) == {d} + TablesFrom(v.spaces[d], 0) && d !in TablesFrom(v.spaces[d], 0)
  {
    var v' := Dropped(v, d);
    forall f ensures f in FramesOf(v, d) <==> f in {d} + TablesFrom(v.spaces[d], 0) {
      if f in FramesOf(v, d) { assert HasRole(v, f); }
      if f in TablesFrom(v.spaces[d], 0) {
        var k: nat :| k < NPDENTRIES && Present(v.spaces[d].pde[k]) && Frame(v.spaces[d].pde[k]) == f;
        assert v.role[f] == Table(d, k);
      }
    }
    forall e, x: nat | e in v'.spaces && x < NPAGES
      ensures v'.spaces[e].pte[x] == Walked(v'.mem, v'.spaces[e].pde, x)
      ensures x < KERNPAGE && Present(v'.spaces[e].pte[x]) ==> Frame(v'.spaces[e].pte[x]) in v'.role
    {
      assert v.spaces[e].pte[x] == Walked(v.mem, v.spaces[e].pde, x);
    }
    forall e, i: nat | e in v'.spaces && i < NPDENTRIES
      ensures v'.spaces[e].pde[i] == GetWord(v'.mem[e], i)
      ensures Present(v'.spaces[e].pde[i]) ==> Frame(v'.spaces[e].pde[i]) in v'.role
    {
      assert v.spaces[e].pde[i] == GetWord(v.mem[e], i);
    }
    forall g | HasRole(v', g) ensures RoleNamed(v', g, v'.role[g]) { assert HasRole(v, g); }
  }

  // ----- What the ledger means

  ghost predicate UserEntry(v: View, d: nat, x: nat) {
    d in v.spaces && x < KERNPAGE && Present(v.spaces[d].pte[x])
  }

  ghost predicate TableEntry(v: View, d: nat, i: nat) {
    d in v.spaces && i < NPDENTRIES && Present(v.spaces[d].pde[i])
  }

  /** Two entries of user pages or of directories, in whatever spaces, never name the same frame. */
  lemma NoFrameNamedTwice(v: View, d: nat, x: nat, e: nat, y: nat)
    requires Ledger(v)
    ensures UserEntry(v, d, x) && UserEntry(v, e, y) && Frame(v.spaces[d].pte[x]) == Frame(v.spaces[e].pte[y]) ==>
      d == e && x == y
    ensures TableEntry(v, d, x) && TableEntry(v, e, y) && Frame(v.spaces[d].pde[x]) == Frame(v.spaces[e].pde[y]) ==>
      d == e && x == y
    ensures UserEntry(v, d, x) && TableEntry(v, e, y) ==> Frame(v.spaces[d].pte[x]) != Frame(v.spaces[e].pde[y])
    ensures UserEntry(v, d, x) ==> Frame(v.spaces[d].pte[x]) !in v.spaces
    ensures TableEntry(v, e, y) ==> Frame(v.spaces[e].pde[y]) !in v.spaces
  {
    assert UserEntry(v, d, x) ==> v.role[Frame(v.spaces[d].pte[x])] == User(d, x);
    assert TableEntry(v, e, y) ==> v.role[Frame(v.spaces[e].pde[y])] == Table(e, y);
  }

  /**
   * A frame that is not free and not in someone's hands is a directory,
   * or named by an entry; free frames are neither.
   */
  lemma EveryFrameAccounted(v: View, f: nat)
    requires Ledger(v) && f in Pool(v)
    ensures f in v.free ==> f !in v.held && !Used(v, f)
    ensures f !in v.free && f !in v.held ==> Used(v, f)
  {
    if f in v.role {
      assert HasRole(v, f);
    }
    if f in v.free {
      forall d, x: nat | UserEntry(v, d, x) ensures Frame(v.spaces[d].pte[x]) != f {
        assert Frame(v.spaces[d].pte[x]) in v.role;
      }
      forall d, i: nat | TableEntry(v, d, i) ensures Frame(v.spaces[d].pde[i]) != f {
        assert Frame(v.spaces[d].pde[i]) in v.role;
      }
    }
    if f in v.role {
      match v.role[f]
      case Dir =>
      case Table(d, i) => assert TableEntry(v, d, i);
      case User(d, x) => assert UserEntry(v, d, x);
    }
  }

  /** Some address space uses frame f. */
  ghost predicate Used(v: View, f: nat) {
    || f in v.spaces
    || (exists d, i: nat :: TableEntry(v, d, i) && Frame(v.spaces[d].pde[i]) == f)
    || (exists d, x: nat :: UserEntry(v, d, x) && Frame(v.spaces[d].pte[x]) == f)
  }
}
