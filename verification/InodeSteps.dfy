/** Every atomic step of the inode cache keeps its invariant. */
module InodeSteps {
  import opened Outcomes
  import opened FsLayout
  import FsFree
  import opened InodeCache

  // ----- Counting pointers

  lemma OnlyToken(ptrs: map<nat, Ptr>, t: nat, t': nat, i: nat)
    requires t in ptrs && t' in ptrs && ptrs[t].slot == i == ptrs[t'].slot && |Tokens(ptrs, i)| == 1
    ensures t == t'
  {
    var rest := Tokens(ptrs, i) - {t};
    assert Tokens(ptrs, i) == rest + {t};
    assert t' !in rest;
  }

  lemma TokensAdded(ptrs: map<nat, Ptr>, t: nat, p: Ptr, i: nat)
    requires t !in ptrs
    ensures |Tokens(ptrs[t := p], i)| == |Tokens(ptrs, i)| + if p.slot == i then 1 else 0
  {
    assert Tokens(ptrs[t := p], i) == Tokens(ptrs, i) + if p.slot == i then {t} else {};
  }

  lemma TokensDropped(ptrs: map<nat, Ptr>, t: nat, i: nat)
    requires t in ptrs
    ensures |Tokens(ptrs - {t}, i)| == |Tokens(ptrs, i)| - if ptrs[t].slot == i then 1 else 0
  {
    assert Tokens(ptrs - {t}, i) == Tokens(ptrs, i) - {t};
  }

  lemma TokensSame(ptrs: map<nat, Ptr>, t: nat, p: Ptr, i: nat)
    requires t in ptrs && ptrs[t].slot == p.slot
    ensures Tokens(ptrs[t := p], i) == Tokens(ptrs, i)
  {
  }

  // ----- Steps of a user within its entry

  /** User u, and at most its pointer, its entry and that entry's inode on disk, change. */
  predicate Local(h: Cache, g: Cache, u: nat, t: nat, i: nat) {
    && Sane(h) && u in h.users && Token(h.users[u]) == Some(t) && i == h.ptrs[t].slot && i < |g.slots| && u in g.users
    && t in g.ptrs
    && g.named == h.named && g.claimed == h.claimed
    && g.users == h.users[u := g.users[u]] && (Token(g.users[u]) == Some(t) || g.users[u] == Away)
    && g.ptrs == h.ptrs[t := g.ptrs[t]] && g.ptrs[t].slot == i && g.ptrs[t].putter == h.ptrs[t].putter
    && g.slots == h.slots[i := g.slots[i]]
    && var s, s' := h.slots[i], g.slots[i];
       && s.ref > 0 && s'.ref == s.ref && s'.key == s.key && s.key in g.disk && g.disk == h.disk[s.key := g.disk[s.key]]
       && (s.lock == None || s.lock == Some(u)) && (s'.lock == None || s'.lock == Some(u))
  }

  /** What is left to show after such a step. */
  ghost predicate Restored(h: Cache, g: Cache, u: nat, t: nat, i: nat)
    requires Local(h, g, u, t, i)
  {
    var s' := g.slots[i];
    && WorkOk(s', u, if Token(g.users[u]).Some? then g.users[u] else Away)
    && (Token(g.users[u]).None? ==> g.ptrs[t].putter.None?)
    && (g.ptrs[t].putter.Some? ==> Putting(g.users[u]))
    && (Token(g.users[u]).Some? ==> g.ptrs[t].putter == if Putting(g.users[u]) then Some(u) else None)
    && (g.ptrs[t].freed ==> PastFreeing(g.users[u]) && g.ptrs[t].putter.Some?)
    && (s'.valid && !Changing(g, s') ==> s'.dino == g.disk[s'.key] && s'.dino.kind != 0)
    && (Unclaimed(g, s'.key) ==> g.ptrs[t].freed && s'.ref == 1 && (s'.valid ==> g.users[u].Invalidating?))
    && (s'.key in h.claimed ==> g.disk[s'.key] == h.disk[s'.key])
    && (s'.key in h.named ==> Linked(g, s'.key))
  }

  lemma LocalSlots(h: Cache, g: Cache, u: nat, t: nat, i: nat, j: nat)
    requires Ok(h) && Local(h, g, u, t, i) && Restored(h, g, u, t, i) && j < |h.slots|
    ensures SlotOk(g, j, g.slots[j])
  {
    assert SlotOk(h, j, h.slots[j]) && SlotOk(h, i, h.slots[i]) && UserOk(h, u, h.users[u]);
    TokensSame(h.ptrs, t, g.ptrs[t], j);
    if h.slots[j].ref > 0 && j != i {
      assert Live(h.slots[j], h.slots[j].key) && Live(h.slots[i], h.slots[i].key);
    }
  }

  lemma LocalTokens(h: Cache, g: Cache, u: nat, t: nat, i: nat, k: nat)
    requires Ok(h) && Local(h, g, u, t, i) && Restored(h, g, u, t, i) && k in h.ptrs
    ensures TokenOk(g, k, g.ptrs[k])
  {
    assert TokenOk(h, k, h.ptrs[k]) && TokenOk(h, t, h.ptrs[t]) && UserOk(h, u, h.users[u]) && SlotOk(h, i, h.slots[i]);
    var j := h.ptrs[k].slot;
    if k != t {
      if j == i {
        if h.slots[i].ref == 1 {
          OnlyToken(h.ptrs, k, t, i);
        }
      } else {
        assert (i < j ==> !Live(h.slots[j], h.slots[i].key)) && (j < i ==> !Live(h.slots[i], h.slots[j].key));
      }
    }
  }

  lemma LocalUsers(h: Cache, g: Cache, u: nat, t: nat, i: nat, v: nat)
    requires Ok(h) && Local(h, g, u, t, i) && Restored(h, g, u, t, i) && v in h.users
    ensures UserOk(g, v, g.users[v])
  {
    assert UserOk(h, v, h.users[v]);
  }

  lemma LocalKeeps(h: Cache, g: Cache, u: nat, t: nat, i: nat)
    requires Ok(h) && Local(h, g, u, t, i) && Restored(h, g, u, t, i)
    ensures Ok(g)
  {
    assert UserOk(h, u, h.users[u]);
    forall j | 0 <= j < |g.slots| ensures SlotOk(g, j, g.slots[j]) {
      LocalSlots(h, g, u, t, i, j);
    }
    forall k | k in g.ptrs ensures TokenOk(g, k, g.ptrs[k]) {
      LocalTokens(h, g, u, t, i, k);
    }
    forall v | v in g.users ensures UserOk(g, v, g.users[v]) {
      LocalUsers(h, g, u, t, i, v);
    }
    forall key | key in g.claimed ensures ClaimedOk(g, key) {
      assert ClaimedOk(h, key);
    }
    forall key | key in g.named ensures Linked(g, key) {
      assert Linked(h, key);
    }
    LocalSane(h, g, u, t, i);
  }

  lemma LocalSane(h: Cache, g: Cache, u: nat, t: nat, i: nat)
    requires Ok(h) && Local(h, g, u, t, i)
    ensures Sane(g) && Unique(g)
  {
    forall j, k | 0 <= j < k < |g.slots| && g.slots[j].ref > 0
      ensures !Live(g.slots[k], g.slots[j].key)
    {
      assert !Live(h.slots[k], h.slots[j].key);
    }
  }

  /** User u is between two steps of a routine, and its entry is as it knows. */
  predicate Busy(h: Cache, u: nat, t: nat, i: nat) {
    Sane(h) && u in h.users && Token(h.users[u]) == Some(t) && t in h.ptrs && i == h.ptrs[t].slot
  }

  lemma BusyFacts(h: Cache, u: nat, t: nat, i: nat)
    requires Ok(h) && Busy(h, u, t, i)
    ensures At(h, u) == i && h.slots[i].ref > 0 && h.slots[i].key in h.disk && WorkOk(h.slots[i], u, h.users[u])
    ensures h.ptrs[t].putter == if Putting(h.users[u]) then Some(u) else None
    ensures h.ptrs[t].freed ==> PastFreeing(h.users[u])
    ensures Unclaimed(h, h.slots[i].key) ==>
      h.ptrs[t].freed && h.slots[i].ref == 1 && (h.slots[i].valid ==> h.users[u].Invalidating?)
    ensures h.slots[i].valid && !Changing(h, h.slots[i]) ==>
      h.slots[i].dino == h.disk[h.slots[i].key] && h.slots[i].dino.kind != 0
    ensures h.slots[i].key in h.named ==> Linked(h, h.slots[i].key)
  {
    assert UserOk(h, u, h.users[u]) && SlotOk(h, i, h.slots[i]) && TokenOk(h, t, h.ptrs[t]);
  }

  lemma NamedStill(h: Cache, g: Cache, i: nat)
    requires Unique(h) && i < |h.slots| && h.slots[i].ref > 0 && Linked(h, h.slots[i].key)
    requires |g.slots| == |h.slots| && g.slots == h.slots[i := g.slots[i]] && h.slots[i].key in g.disk
    requires g.disk[h.slots[i].key].kind != 0 && g.disk[h.slots[i].key].nlink > 0
      && (g.slots[i].valid ==> g.slots[i].dino.nlink > 0)
    ensures Linked(g, h.slots[i].key)
  {
    var key := h.slots[i].key;
    forall j | 0 <= j < |g.slots| && Live(g.slots[j], key) && g.slots[j].valid
      ensures g.slots[j].dino.nlink > 0
    {
      if j != i {
        assert Live(h.slots[j], key);
      }
    }
  }

  /** Steps that leave the disk alone. */
  lemma InSlotKeeps(h: Cache, u: nat, t: nat, i: nat, s: Slot, pc: Pc)
    requires Ok(h) && Busy(h, u, t, i) && (Token(pc) == Some(t) || (pc.Away? && !Putting(h.users[u])))
    requires h.slots[i].lock.None? || h.slots[i].lock == Some(u)
    requires s.key == h.slots[i].key && s.ref == h.slots[i].ref && (s.lock.None? || s.lock == Some(u))
      && WorkOk(s, u, pc)
    requires Putting(pc) == Putting(h.users[u]) && (PastFreeing(h.users[u]) ==> PastFreeing(pc))
    requires PastFreeing(h.users[u]) && s.valid ==> h.slots[i].valid && !h.users[u].Invalidating?
    requires (s.valid && !(s.lock.Some? && (pc.Invalidating? || (pc.Holding? && pc.dirty))) ==>
               s.key in h.disk && s.dino == h.disk[s.key] && s.dino.kind != 0)
    requires s.key in h.named && s.valid ==> s.dino.nlink > 0
    ensures Ok(InSlot(h, u, s, pc))
  {
    BusyFacts(h, u, t, i);
    var g := InSlot(h, u, s, pc);
    assert g.users == h.users[u := g.users[u]] && g.ptrs == h.ptrs[t := g.ptrs[t]]
      && g.slots == h.slots[i := g.slots[i]];
    assert g.disk == h.disk[s.key := g.disk[s.key]];
    assert Local(h, g, u, t, i);
    if s.key in h.named {
      NamedStill(h, g, i);
    }
    assert Restored(h, g, u, t, i);
    LocalKeeps(h, g, u, t, i);
  }

  /** Steps that write the inode to disk, and may free it. */
  lemma OnDiskKeeps(h: Cache, u: nat, t: nat, i: nat, d: Dinode, pc: Pc, freed: bool)
    requires Ok(h) && Busy(h, u, t, i) && Token(pc) == Some(t) && HasLock(h.users[u]) && HasLock(pc)
    requires !PastFreeing(h.users[u]) && Putting(pc) == Putting(h.users[u])
    requires WorkOk(h.slots[i].(dino := d), u, pc)
    requires freed == (d.kind == 0) && (freed ==> pc.Invalidating? && h.slots[i].ref == 1)
      && (!freed ==> !pc.Invalidating?)
    requires h.slots[i].key in h.named ==> d.nlink > 0 && d.kind != 0
    ensures Ok(OnDisk(h, u, d, pc).(ptrs := h.ptrs[t := h.ptrs[t].(freed := freed)]))
  {
    BusyFacts(h, u, t, i);
    var g := OnDisk(h, u, d, pc).(ptrs := h.ptrs[t := h.ptrs[t].(freed := freed)]);
    var key := h.slots[i].key;
    assert g.users == h.users[u := g.users[u]] && g.ptrs == h.ptrs[t := g.ptrs[t]]
      && g.slots == h.slots[i := g.slots[i]];
    assert g.disk == h.disk[key := g.disk[key]];
    assert Local(h, g, u, t, i);
    if key in h.named {
      NamedStill(h, g, i);
    }
    assert Restored(h, g, u, t, i);
    LocalKeeps(h, g, u, t, i);
  }

  lemma LockKeeps(h: Cache, u: nat)
    requires Ok(h) && Allowed(h, Go(u)) && (h.users[u].WantLock? || h.users[u].PutWant?)
    ensures Ok(Advance(h, u))
  {
    var t, i := h.users[u].t, At(h, u);
    var s := h.slots[i];
    BusyFacts(h, u, t, i);
    if s.lock.None? {
      InSlotKeeps(h, u, t, i, s.(lock := Some(u)), if h.users[u].WantLock? then Filling(t) else PutTest(t));
    }
  }

  lemma FillKeeps(h: Cache, u: nat)
    requires Ok(h) && Allowed(h, Go(u)) && h.users[u].Filling?
    ensures Ok(Advance(h, u))
  {
    var t, i := h.users[u].t, At(h, u);
    var s := h.slots[i];
    BusyFacts(h, u, t, i);
    InSlotKeeps(h, u, t, i, if s.valid then s else s.(dino := h.disk[s.key], valid := true), Holding(t, false));
  }

  lemma TestKeeps(h: Cache, u: nat)
    requires Ok(h) && Allowed(h, Go(u)) && (h.users[u].PutTest? || h.users[u].PutCount?)
    ensures Ok(Advance(h, u))
  {
    var t, i, g := h.users[u].t, At(h, u), Advance(h, u);
    BusyFacts(h, u, t, i);
    InSlotKeeps(h, u, t, i, h.slots[i], g.users[u]);
  }

  lemma FreeKeeps(h: Cache, u: nat)
    requires Ok(h) && Allowed(h, Go(u)) && (h.users[u].Truncating? || h.users[u].Clearing?)
    ensures Ok(Advance(h, u))
  {
    var t, i := h.users[u].t, At(h, u);
    var s := h.slots[i];
    BusyFacts(h, u, t, i);
    if h.users[u].Truncating? {
      OnDiskKeeps(h, u, t, i, s.dino.(addrs := FsFree.NoAddrs(), size := 0), Clearing(t), false);
      assert h.ptrs[t := h.ptrs[t].(freed := false)] == h.ptrs;
    } else {
      OnDiskKeeps(h, u, t, i, s.dino.(kind := 0), Invalidating(t), true);
    }
  }

  lemma ReleaseKeeps(h: Cache, u: nat)
    requires Ok(h) && Allowed(h, Go(u)) && (h.users[u].Invalidating? || h.users[u].PutRelease?)
    ensures Ok(Advance(h, u))
  {
    var t, i := h.users[u].t, At(h, u);
    var s := h.slots[i];
    BusyFacts(h, u, t, i);
    InSlotKeeps(h, u, t, i, if h.users[u].Invalidating? then s.(valid := false) else s.(lock := None),
                if h.users[u].Invalidating? then PutRelease(t) else PutDrop(t));
  }

  /** Unlocking, editing and writing through, by the user that holds the lock. */
  lemma HolderKeeps(h: Cache, m: Move)
    requires Ok(h) && Allowed(h, m) && (m.Edit? || m.Flush? || m.Unlock?)
    ensures Ok(Step(h, m))
  {
    var t, i := h.users[m.u].t, At(h, m.u);
    var s := h.slots[i];
    BusyFacts(h, m.u, t, i);
    match m
    case Edit(u, d) => InSlotKeeps(h, u, t, i, s.(dino := d), Holding(t, true));
    case Flush(u) =>
      OnDiskKeeps(h, u, t, i, s.dino, Holding(t, false), false);
      assert h.ptrs[t := h.ptrs[t].(freed := false)] == h.ptrs;
    case Unlock(u) => InSlotKeeps(h, u, t, i, s.(lock := None), Away);
  }

  /** Steps that write nothing to disk and cache no new copy. */
  lemma InodesStay(h: Cache, g: Cache)
    requires Ok(h) && g.disk == h.disk && g.named == h.named && g.claimed.Keys <= h.claimed.Keys
      && |g.slots| == |h.slots|
    requires forall j :: 0 <= j < |g.slots| && g.slots[j].ref > 0 && g.slots[j].valid ==>
                      h.slots[j].ref > 0 && h.slots[j].valid && g.slots[j].dino == h.slots[j].dino
                        && g.slots[j].key == h.slots[j].key
    ensures (forall key :: key in g.claimed ==> ClaimedOk(g, key)) && forall key :: key in g.named ==> Linked(g, key)
  {
    forall key | key in g.claimed ensures ClaimedOk(g, key) {
      assert ClaimedOk(h, key);
    }
    forall key | key in g.named ensures Linked(g, key) {
      assert Linked(h, key);
    }
  }

  // ----- Steps that give or take a pointer

  function Dropped(h: Cache, u: nat, t: nat, i: nat): Cache
    requires i < |h.slots| && h.slots[i].ref > 0
  {
    h.(slots := h.slots[i := h.slots[i].(ref := h.slots[i].ref - 1)], ptrs := h.ptrs - {t}, users := h.users[u := Away])
  }

  lemma DropSlots(h: Cache, u: nat, t: nat, i: nat, j: nat)
    requires Ok(h) && Busy(h, u, t, i) && h.users[u].PutDrop? && h.slots[i].ref > 0 && j < |h.slots|
    ensures SlotOk(Dropped(h, u, t, i), j, Dropped(h, u, t, i).slots[j])
  {
    TokensDropped(h.ptrs, t, j);
    var s := h.slots[j];
    assert SlotOk(h, j, s) && UserOk(h, u, h.users[u]);
    if s.lock.Some? {
      assert UserOk(h, s.lock.value, h.users[s.lock.value]);
    }
  }

  lemma DropTokens(h: Cache, u: nat, t: nat, i: nat, k: nat)
    requires Ok(h) && Busy(h, u, t, i) && h.users[u].PutDrop? && h.slots[i].ref > 0 && k in h.ptrs && k != t
    ensures TokenOk(Dropped(h, u, t, i), k, h.ptrs[k])
  {
    assert TokenOk(h, k, h.ptrs[k]) && SlotOk(h, i, h.slots[i]);
    if h.ptrs[k].slot == i && h.slots[i].ref == 1 {
      OnlyToken(h.ptrs, k, t, i);
    }
  }

  lemma DropUsers(h: Cache, u: nat, t: nat, i: nat, v: nat)
    requires Ok(h) && Busy(h, u, t, i) && h.users[u].PutDrop? && h.slots[i].ref > 0 && v in h.users
    ensures UserOk(Dropped(h, u, t, i), v, Dropped(h, u, t, i).users[v])
  {
    assert UserOk(h, v, h.users[v]) && UserOk(h, u, h.users[u]) && SlotOk(h, i, h.slots[i]);
    if v != u && Token(h.users[v]).Some? && h.ptrs[h.users[v].t].slot == i && h.slots[i].ref == 1 {
      OnlyToken(h.ptrs, h.users[v].t, t, i);
    }
  }

  lemma DropShape(h: Cache, u: nat, t: nat, i: nat)
    requires Ok(h) && Busy(h, u, t, i) && h.users[u].PutDrop? && h.slots[i].ref > 0
    ensures Sane(Dropped(h, u, t, i)) && Unique(Dropped(h, u, t, i))
  {
    var g := Dropped(h, u, t, i);
    forall j, k | 0 <= j < k < |g.slots| && g.slots[j].ref > 0 ensures !Live(g.slots[k], g.slots[j].key) {
      assert !Live(h.slots[k], h.slots[j].key);
    }
    forall v | v in g.users && Token(g.users[v]).Some? ensures g.users[v].t in g.ptrs {
      assert UserOk(h, v, h.users[v]) && UserOk(h, u, h.users[u]);
    }
  }

  lemma DropKeeps(h: Cache, u: nat, t: nat, i: nat)
    requires Ok(h) && Busy(h, u, t, i) && h.users[u].PutDrop? && h.slots[i].ref > 0
    ensures Ok(Dropped(h, u, t, i))
  {
    var g := Dropped(h, u, t, i);
    forall j | 0 <= j < |g.slots| ensures SlotOk(g, j, g.slots[j]) {
      DropSlots(h, u, t, i, j);
    }
    forall k | k in g.ptrs ensures TokenOk(g, k, g.ptrs[k]) {
      DropTokens(h, u, t, i, k);
    }
    forall v | v in g.users ensures UserOk(g, v, g.users[v]) {
      DropUsers(h, u, t, i, v);
    }
    DropShape(h, u, t, i);
    InodesStay(h, g);
  }

  /** A new pointer t to entry i, which is live for key or unused. */
  function Added(h: Cache, key: Key, t: nat, i: nat): Cache
    requires i < |h.slots|
  {
    h.(slots := h.slots[i := Gotten(h.slots[i], key)], ptrs := h.ptrs[t := Ptr(i, None, false)])
  }

  /** No user is freeing entry i as the only one that has it. */
  predicate Undisturbed(h: Cache, i: nat)
    requires Sane(h)
  {
    forall v :: v in h.users && (h.users[v].Truncating? || h.users[v].Clearing?) ==> At(h, v) != i
  }

  ghost predicate CanAdd(h: Cache, key: Key, t: nat, i: nat) {
    && Ok(h) && IsChoice(h.slots, key, Some(i)) && t !in h.ptrs && Undisturbed(h, i)
    && key in h.disk && !Unclaimed(h, key)
  }

  lemma EmptySlot(h: Cache, i: nat)
    requires Ok(h) && i < |h.slots| && h.slots[i].ref == 0
    ensures h.slots[i].lock.None? && forall k :: k in h.ptrs ==> h.ptrs[k].slot != i
  {
    assert SlotOk(h, i, h.slots[i]);
    forall k | k in h.ptrs ensures h.ptrs[k].slot != i {
      assert TokenOk(h, k, h.ptrs[k]);
    }
  }

  lemma AddSlots(h: Cache, key: Key, t: nat, i: nat, j: nat)
    requires CanAdd(h, key, t, i) && j < |h.slots|
    ensures SlotOk(Added(h, key, t, i), j, Added(h, key, t, i).slots[j])
  {
    TokensAdded(h.ptrs, t, Ptr(i, None, false), j);
    assert SlotOk(h, j, h.slots[j]);
    if h.slots[j].ref == 0 {
      EmptySlot(h, j);
    }
  }

  lemma AddTokens(h: Cache, key: Key, t: nat, i: nat, k: nat)
    requires CanAdd(h, key, t, i) && (k in h.ptrs || k == t)
    ensures TokenOk(Added(h, key, t, i), k, Added(h, key, t, i).ptrs[k])
  {
    if k != t {
      assert TokenOk(h, k, h.ptrs[k]);
    }
    if h.slots[i].ref == 0 {
      EmptySlot(h, i);
    }
  }

  lemma AddUsers(h: Cache, key: Key, t: nat, i: nat, v: nat)
    requires CanAdd(h, key, t, i) && v in h.users
    ensures UserOk(Added(h, key, t, i), v, h.users[v])
  {
    assert UserOk(h, v, h.users[v]);
    if h.slots[i].ref == 0 {
      EmptySlot(h, i);
    }
  }

  lemma AddUnique(h: Cache, key: Key, t: nat, i: nat)
    requires CanAdd(h, key, t, i)
    ensures Sane(Added(h, key, t, i)) && Unique(Added(h, key, t, i))
  {
    var g := Added(h, key, t, i);
    forall j, k | 0 <= j < k < |g.slots| && g.slots[j].ref > 0 ensures !Live(g.slots[k], g.slots[j].key) {
      assert h.slots[j].ref > 0 ==> !Live(h.slots[k], h.slots[j].key);
    }
  }

  lemma AddKeeps(h: Cache, key: Key, t: nat, i: nat)
    requires CanAdd(h, key, t, i)
    ensures Ok(Added(h, key, t, i))
  {
    var g := Added(h, key, t, i);
    forall j | 0 <= j < |g.slots| ensures SlotOk(g, j, g.slots[j]) {
      AddSlots(h, key, t, i, j);
    }
    forall k | k in g.ptrs ensures TokenOk(g, k, g.ptrs[k]) {
      AddTokens(h, key, t, i, k);
    }
    forall v | v in g.users ensures UserOk(g, v, g.users[v]) {
      AddUsers(h, key, t, i, v);
    }
    AddUnique(h, key, t, i);
    InodesStay(h, g);
  }

  /** A named inode, or one that ialloc has just claimed, is not being freed. */
  lemma NotBeingFreed(h: Cache, key: Key, i: nat)
    requires Ok(h) && i < |h.slots| && (h.slots[i].ref > 0 ==> h.slots[i].key == key)
      && (key in h.named || Unclaimed(h, key))
    ensures Undisturbed(h, i)
  {
    forall v | v in h.users && (h.users[v].Truncating? || h.users[v].Clearing?) ensures At(h, v) != i {
      var t := h.users[v].t;
      BusyFacts(h, v, t, At(h, v));
      assert key in h.named ==> Linked(h, key);
    }
  }

  lemma DupKeeps(h: Cache, src: nat, t: nat)
    requires Ok(h) && Allowed(h, Dup(src, t))
    ensures Ok(Step(h, Dup(src, t)))
  {
    var i := h.ptrs[src].slot;
    var key := h.slots[i].key;
    assert TokenOk(h, src, h.ptrs[src]) && SlotOk(h, i, h.slots[i]);
    forall v | v in h.users && (h.users[v].Truncating? || h.users[v].Clearing?) ensures At(h, v) != i {
      BusyFacts(h, v, h.users[v].t, At(h, v));
      if At(h, v) == i {
        OnlyToken(h.ptrs, src, h.users[v].t, i);
      }
    }
    AddKeeps(h, key, t, i);
  }

  // ----- Steps that change no entry

  lemma UserSlots(h: Cache, u: nat, pc: Pc, j: nat)
    requires Ok(h) && u in h.users && Token(h.users[u]).None? && j < |h.slots|
    ensures SlotOk(h.(users := h.users[u := pc]), j, h.slots[j])
  {
    assert SlotOk(h, j, h.slots[j]);
  }

  lemma UserTokens(h: Cache, u: nat, pc: Pc, k: nat)
    requires Ok(h) && u in h.users && Token(h.users[u]).None? && k in h.ptrs
    ensures TokenOk(h.(users := h.users[u := pc]), k, h.ptrs[k])
  {
    assert TokenOk(h, k, h.ptrs[k]);
  }

  lemma UserKeeps(h: Cache, u: nat, pc: Pc)
    requires Ok(h) && u in h.users && Token(h.users[u]).None? && UserOk(h, u, pc)
    ensures Ok(h.(users := h.users[u := pc]))
  {
    var g := h.(users := h.users[u := pc]);
    forall j | 0 <= j < |g.slots| ensures SlotOk(g, j, g.slots[j]) {
      UserSlots(h, u, pc, j);
    }
    forall k | k in g.ptrs ensures TokenOk(g, k, g.ptrs[k]) {
      UserTokens(h, u, pc, k);
    }
    forall v | v in g.users ensures UserOk(g, v, g.users[v]) {
      assert UserOk(h, v, h.users[v]);
    }
    InodesStay(h, g);
  }

  lemma PutUsers(h: Cache, u: nat, t: nat, v: nat)
    requires Ok(h) && Allowed(h, Put(u, t)) && v in h.users
    ensures UserOk(Step(h, Put(u, t)), v, Step(h, Put(u, t)).users[v])
  {
    var i := h.ptrs[t].slot;
    assert UserOk(h, v, h.users[v]) && Token(h.users[v]) != Some(t);
    assert TokenOk(h, t, h.ptrs[t]) && SlotOk(h, i, h.slots[i]);
  }

  lemma PutKeeps(h: Cache, u: nat, t: nat)
    requires Ok(h) && Allowed(h, Put(u, t))
    ensures Ok(Step(h, Put(u, t)))
  {
    var g := Step(h, Put(u, t));
    assert TokenOk(h, t, h.ptrs[t]);
    forall j | 0 <= j < |g.slots| ensures SlotOk(g, j, g.slots[j]) {
      assert SlotOk(h, j, h.slots[j]);
      TokensSame(h.ptrs, t, g.ptrs[t], j);
    }
    forall k | k in g.ptrs ensures TokenOk(g, k, g.ptrs[k]) {
      assert TokenOk(h, k, h.ptrs[k]);
    }
    forall v | v in g.users ensures UserOk(g, v, g.users[v]) {
      PutUsers(h, u, t, v);
    }
    InodesStay(h, g);
  }

  lemma AllocSlots(h: Cache, u: nat, key: Key, kind: nat, j: nat)
    requires Ok(h) && Allowed(h, Alloc(u, key, kind)) && j < |h.slots|
    ensures SlotOk(Step(h, Alloc(u, key, kind)), j, h.slots[j])
  {
    assert SlotOk(h, j, h.slots[j]);
  }

  lemma AllocTokens(h: Cache, u: nat, key: Key, kind: nat, k: nat)
    requires Ok(h) && Allowed(h, Alloc(u, key, kind)) && k in h.ptrs
    ensures TokenOk(Step(h, Alloc(u, key, kind)), k, h.ptrs[k])
  {
    assert TokenOk(h, k, h.ptrs[k]);
  }

  lemma AllocUsers(h: Cache, u: nat, key: Key, kind: nat, v: nat)
    requires Ok(h) && Allowed(h, Alloc(u, key, kind)) && v in h.users
    ensures UserOk(Step(h, Alloc(u, key, kind)), v, Step(h, Alloc(u, key, kind)).users[v])
  {
    assert UserOk(h, v, h.users[v]) && (key in h.claimed ==> ClaimedOk(h, key));
  }

  lemma AllocKeeps(h: Cache, u: nat, key: Key, kind: nat)
    requires Ok(h) && Allowed(h, Alloc(u, key, kind))
    ensures Ok(Step(h, Alloc(u, key, kind)))
  {
    var g := Step(h, Alloc(u, key, kind));
    forall j | 0 <= j < |g.slots| ensures SlotOk(g, j, g.slots[j]) {
      AllocSlots(h, u, key, kind, j);
    }
    forall k | k in g.ptrs ensures TokenOk(g, k, g.ptrs[k]) {
      AllocTokens(h, u, key, kind, k);
    }
    forall v | v in g.users ensures UserOk(g, v, g.users[v]) {
      AllocUsers(h, u, key, kind, v);
    }
    forall k | k in g.claimed ensures ClaimedOk(g, k) {
      assert k != key ==> ClaimedOk(h, k);
    }
    forall k | k in g.named ensures Linked(g, k) {
      assert Linked(h, k);
    }
  }

  lemma UnclaimKeeps(h: Cache, u: nat)
    requires Ok(h) && u in h.users && h.users[u].Got?
    ensures Ok(h.(users := h.users[u := Away], claimed := h.claimed - {h.users[u].key}))
  {
    var key := h.users[u].key;
    var g := h.(users := h.users[u := Away], claimed := h.claimed - {key});
    assert UserOk(h, u, h.users[u]) && ClaimedOk(h, key);
    forall j | 0 <= j < |g.slots| ensures SlotOk(g, j, g.slots[j]) {
      assert SlotOk(h, j, h.slots[j]);
    }
    forall k | k in g.ptrs ensures TokenOk(g, k, g.ptrs[k]) {
      assert TokenOk(h, k, h.ptrs[k]);
    }
    forall v | v in g.users ensures UserOk(g, v, g.users[v]) {
      assert UserOk(h, v, h.users[v]);
    }
    InodesStay(h, g);
  }

  lemma WithPtrKeeps(h: Cache, u: nat, key: Key, t: nat, i: nat)
    requires CanAdd(h, key, t, i) && u in h.users && h.users[u].Away? && Choose(h.slots, key) == Some(i)
    ensures Ok(WithPtr(h, u, key, t))
  {
    AddKeeps(h, key, t, i);
    assert h.users[u := Away] == h.users;
  }

  lemma IgetKeeps(h: Cache, u: nat, key: Key, t: nat)
    requires Ok(h) && Allowed(h, Iget(u, key, t))
    ensures Ok(Step(h, Iget(u, key, t)))
  {
    var r := Choose(h.slots, key);
    assert UserOk(h, u, h.users[u]) && Linked(h, key);
    if r.None? {
      UserKeeps(h, u, NoInodes);
    } else {
      NotBeingFreed(h, key, r.value);
      assert key in h.claimed ==> ClaimedOk(h, key);
      WithPtrKeeps(h, u, key, t, r.value);
    }
  }

  lemma UnclaimedIsUndisturbed(h: Cache, u: nat, i: nat)
    requires Ok(h) && u in h.users && h.users[u].Got? && Undisturbed(h, i)
    ensures Undisturbed(h.(users := h.users[u := Away], claimed := h.claimed - {h.users[u].key}), i)
  {
    var mid := h.(users := h.users[u := Away], claimed := h.claimed - {h.users[u].key});
    forall v | v in mid.users && (mid.users[v].Truncating? || mid.users[v].Clearing?) ensures At(mid, v) != i {
      assert At(h, v) == At(mid, v);
    }
  }

  lemma AllocIgetKeeps(h: Cache, u: nat, t: nat)
    requires Ok(h) && Allowed(h, AllocIget(u, t))
    ensures Ok(Step(h, AllocIget(u, t)))
  {
    var key := h.users[u].key;
    var r := Choose(h.slots, key);
    assert UserOk(h, u, h.users[u]) && ClaimedOk(h, key);
    if r.None? {
      UserKeeps(h, u, NoInodes);
    } else {
      var mid := h.(users := h.users[u := Away], claimed := h.claimed - {key});
      NotBeingFreed(h, key, r.value);
      UnclaimKeeps(h, u);
      UnclaimedIsUndisturbed(h, u, r.value);
      AddKeeps(mid, key, t, r.value);
    }
  }

  lemma NameKeeps(h: Cache, named: set<Key>)
    requires Ok(h) && Allowed(h, Name(named))
    ensures Ok(Step(h, Name(named)))
  {
    var g := Step(h, Name(named));
    forall j | 0 <= j < |g.slots| ensures SlotOk(g, j, g.slots[j]) {
      assert SlotOk(h, j, h.slots[j]);
    }
    forall k | k in g.ptrs ensures TokenOk(g, k, g.ptrs[k]) {
      assert TokenOk(h, k, h.ptrs[k]);
    }
    forall v | v in g.users ensures UserOk(g, v, g.users[v]) {
      assert UserOk(h, v, h.users[v]);
    }
    forall k | k in g.claimed ensures ClaimedOk(g, k) {
      assert ClaimedOk(h, k);
    }
    forall k | k in g.named ensures Linked(g, k) {
      assert Linked(h, k);
    }
  }

  lemma StepKeeps(h: Cache, m: Move)
    requires Ok(h) && Allowed(h, m)
    ensures Ok(Step(h, m))
  {
    match m
    case Iget(u, key, t) => IgetKeeps(h, u, key, t);
    case Dup(src, t) => DupKeeps(h, src, t);
    case Lock(u, t) =>
      assert UserOk(h, u, h.users[u]) && TokenOk(h, t, h.ptrs[t]) && SlotOk(h, h.ptrs[t].slot, h.slots[h.ptrs[t].slot]);
      UserKeeps(h, u, WantLock(t));
    case Edit(_, _) => HolderKeeps(h, m);
    case Flush(_) => HolderKeeps(h, m);
    case Unlock(_) => HolderKeeps(h, m);
    case Put(u, t) => PutKeeps(h, u, t);
    case Alloc(u, key, kind) => AllocKeeps(h, u, key, kind);
    case AllocIget(u, t) => AllocIgetKeeps(h, u, t);
    case Name(named) => NameKeeps(h, named);
    case Go(u) => GoKeeps(h, u);
  }

  lemma GoKeeps(h: Cache, u: nat)
    requires Ok(h) && Allowed(h, Go(u))
    ensures Ok(Advance(h, u))
  {
    match h.users[u]
    case WantLock(_) => LockKeeps(h, u);
    case Filling(_) => FillKeeps(h, u);
    case PutWant(_) => LockKeeps(h, u);
    case PutTest(_) => TestKeeps(h, u);
    case PutCount(_) => TestKeeps(h, u);
    case Truncating(_) => FreeKeeps(h, u);
    case Clearing(_) => FreeKeeps(h, u);
    case Invalidating(_) => ReleaseKeeps(h, u);
    case PutRelease(_) => ReleaseKeeps(h, u);
    case PutDrop(t) => DropKeeps(h, u, t, At(h, u));
  }
}
