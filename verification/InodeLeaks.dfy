/**
 * When an inode that nobody can reach any more stays allocated: just
 * when that happens, a run in which it does, and none without overlap.
 */
module InodeLeaks {
  import opened Outcomes
  import opened FsLayout
  import opened InodeCache
  import opened InodeSteps
  import opened InodeRuns
  import opened InodePuts

  /** An inode that is in use on disk, but that no directory names and no pointer reaches. */
  predicate Leaked(h: Cache, key: Key) {
    && key in h.disk && h.disk[key].kind != 0 && h.disk[key].nlink == 0 && key !in h.named && key !in h.claimed
    && forall j :: 0 <= j < |h.slots| ==> !Live(h.slots[j], key)
  }

  // ----- Just when a step leaks

  /**
   * Move m gives back the last pointer to the entry of an inode that
   * has no links but is in use on disk, and not ialloc's.
   */
  predicate DropsUnlinked(h: Cache, m: Move, key: Key)
    requires Sane(h) && Allowed(h, m)
  {
    && m.Go? && h.users[m.u].PutDrop? && h.slots[At(h, m.u)].key == key && h.slots[At(h, m.u)].ref == 1
    && key in h.disk && h.disk[key].kind != 0 && h.disk[key].nlink == 0 && key !in h.claimed
  }

  predicate SomeLive(h: Cache, key: Key) {
    exists j :: 0 <= j < |h.slots| && Live(h.slots[j], key)
  }

  /** Entries that stay in use keep their inode from leaking; so does a name, a claim, or a link on disk that stays. */
  lemma StaysUnleaked(h: Cache, g: Cache, key: Key)
    requires Ok(h) && !Leaked(h, key) && g.disk.Keys == h.disk.Keys && (SomeLive(h, key) ==> SomeLive(g, key))
    requires key in h.disk && g.disk[key] != h.disk[key] ==> SomeLive(g, key) || key in g.claimed
    requires key in h.claimed ==> key in g.claimed || SomeLive(g, key)
    ensures !Leaked(g, key)
  {
    assert key in h.named ==> Linked(h, key);
  }

  /** Entry i stays in use for its inode, and the others are as they were. */
  lemma StaysLive(h: Cache, g: Cache, i: nat, key: Key)
    requires i < |h.slots| == |g.slots| && g.slots[i].key == h.slots[i].key
      && (h.slots[i].ref > 0 ==> g.slots[i].ref > 0)
    requires forall j :: 0 <= j < |h.slots| && j != i ==> g.slots[j] == h.slots[j]
    ensures SomeLive(h, key) ==> SomeLive(g, key)
    ensures g.slots[i].ref > 0 && g.slots[i].key == key ==> SomeLive(g, key)
  {
    if j :| 0 <= j < |h.slots| && Live(h.slots[j], key) {
      assert Live(g.slots[j], key);
    }
    if g.slots[i].ref > 0 && g.slots[i].key == key {
      assert Live(g.slots[i], key);
    }
  }

  lemma GetLeaksNothing(h: Cache, u: nat, k: Key, t: nat, key: Key)
    requires Ok(h) && !Leaked(h, key) && u in h.users && t !in h.ptrs
    ensures var g := WithPtr(h, u, k, t);
      !Leaked(g, key) && (u in g.users && !g.users[u].NoInodes? && k == key ==> SomeLive(g, key))
  {
    var r, g := Choose(h.slots, k), WithPtr(h, u, k, t);
    if r.Some? {
      var i := r.value;
      if h.slots[i].ref > 0 {
        StaysLive(h, g, i, key);
      } else {
        if j :| 0 <= j < |h.slots| && Live(h.slots[j], key) {
          assert Live(g.slots[j], key);
        }
        if k == key {
          assert Live(g.slots[i], key);
        }
      }
    }
    StaysUnleaked(h, g, key);
  }

  lemma AllocGetLeaksNothing(h: Cache, u: nat, t: nat, key: Key)
    requires Ok(h) && !Leaked(h, key) && Allowed(h, AllocIget(u, t))
    ensures !Leaked(Step(h, AllocIget(u, t)), key)
  {
    var k := h.users[u].key;
    var w, g := WithPtr(h, u, k, t), Step(h, AllocIget(u, t));
    GetLeaksNothing(h, u, k, t, key);
    if !w.users[u].NoInodes? {
      if SomeLive(w, key) {
        assert SomeLive(g, key);
      } else {
        assert key != k;
        assert Leaked(g, key) ==> Leaked(w, key);
      }
    }
  }

  /** Steps of a user within its entry. */
  lemma WorkLeaksNothing(h: Cache, g: Cache, i: nat, key: Key)
    requires Ok(h) && !Leaked(h, key) && i < |h.slots| && h.slots[i].ref > 0 && g.claimed == h.claimed
    requires |g.slots| == |h.slots| && g.slots[i].key == h.slots[i].key && g.slots[i].ref > 0
      && g.disk.Keys == h.disk.Keys
    requires forall j :: 0 <= j < |h.slots| && j != i ==> g.slots[j] == h.slots[j]
    requires forall k :: k in h.disk && k != h.slots[i].key ==> g.disk[k] == h.disk[k]
    ensures !Leaked(g, key)
  {
    StaysLive(h, g, i, key);
    StaysUnleaked(h, g, key);
  }

  lemma DropLeaksExactlyWhen(h: Cache, u: nat, key: Key)
    requires Ok(h) && Allowed(h, Go(u)) && h.users[u].PutDrop? && !Leaked(h, key)
    ensures Leaked(Advance(h, u), key) <==> DropsUnlinked(h, Go(u), key)
  {
    var i, g := At(h, u), Advance(h, u);
    assert key in h.named ==> Linked(h, key);
    if h.slots[i].ref > 1 || h.slots[i].key != key {
      if j :| 0 <= j < |h.slots| && Live(h.slots[j], key) {
        assert Live(g.slots[j], key);
      }
      StaysUnleaked(h, g, key);
    } else {
      forall j | 0 <= j < |h.slots| && j != i
        ensures !Live(g.slots[j], key)
      {
        assert i < j ==> !Live(h.slots[j], h.slots[i].key);
        assert j < i && h.slots[j].ref > 0 ==> !Live(h.slots[i], h.slots[j].key);
      }
    }
  }

  /** No other step leaks an inode, and every such step does. */
  lemma LeaksExactlyWhen(h: Cache, m: Move, key: Key)
    requires Ok(h) && Allowed(h, m) && !Leaked(h, key)
    ensures Leaked(Step(h, m), key) <==> DropsUnlinked(h, m, key)
  {
    match m
    case Iget(u, k, t) => GetLeaksNothing(h, u, k, t, key);
    case AllocIget(u, t) => AllocGetLeaksNothing(h, u, t, key);
    case Dup(src, t) =>
      assert TokenOk(h, src, h.ptrs[src]);
      WorkLeaksNothing(h, Step(h, m), h.ptrs[src].slot, key);
    case Lock(_, _) => StaysUnleaked(h, Step(h, m), key);
    case Put(_, _) => StaysUnleaked(h, Step(h, m), key);
    case Name(_) => StaysUnleaked(h, Step(h, m), key);
    case Alloc(_, _, _) => StaysUnleaked(h, Step(h, m), key);
    case Edit(u, _) => HolderLeaksNothing(h, m, key);
    case Flush(u) => HolderLeaksNothing(h, m, key);
    case Unlock(u) => HolderLeaksNothing(h, m, key);
    case Go(u) =>
      if h.users[u].PutDrop? {
        DropLeaksExactlyWhen(h, u, key);
      } else {
        AdvanceLeaksNothing(h, u, key);
      }
  }

  lemma HolderLeaksNothing(h: Cache, m: Move, key: Key)
    requires Ok(h) && Allowed(h, m) && (m.Edit? || m.Flush? || m.Unlock?) && !Leaked(h, key)
    ensures !Leaked(Step(h, m), key)
  {
    BusyFacts(h, m.u, h.users[m.u].t, At(h, m.u));
    WorkLeaksNothing(h, Step(h, m), At(h, m.u), key);
  }

  lemma AdvanceLeaksNothing(h: Cache, u: nat, key: Key)
    requires Ok(h) && Allowed(h, Go(u)) && !h.users[u].PutDrop? && !Leaked(h, key)
    ensures !Leaked(Advance(h, u), key)
  {
    BusyFacts(h, u, h.users[u].t, At(h, u));
    WorkLeaksNothing(h, Advance(h, u), At(h, u), key);
  }

  // ----- Runs without overlap leak nothing

  /** From its test of the entry to giving the pointer back. */
  predicate InStretch(pc: Pc) {
    pc.PutCount? || pc.Truncating? || pc.Clearing? || pc.Invalidating? || pc.PutRelease? || pc.PutDrop?
  }

  /** No two iputs are in this stretch on the same entry. */
  predicate NoOverlap(h: Cache)
    requires Sane(h)
  {
    forall u, v :: u in h.users && v in h.users && u != v && InStretch(h.users[u]) && InStretch(h.users[v]) ==>
      At(h, u) != At(h, v)
  }

  /**
   * An iput that tests an entry that is not valid, so that it does not
   * look at the links, leaves no unlinked inode behind.
   */
  predicate TestsKnown(h: Cache, m: Move)
    requires Sane(h) && Allowed(h, m)
  {
    m.Go? && h.users[m.u].PutTest? ==>
      var s := h.slots[At(h, m.u)];
      s.valid || (s.key in h.disk && h.disk[s.key].nlink > 0)
  }

  /** Whoever is about to give its pointer back has a reason not to have freed the inode. */
  ghost predicate Excused(h: Cache, s: Slot, p: Ptr) {
    || s.ref >= 2
    || (if p.freed then Unclaimed(h, s.key)
        else if s.valid then s.dino.nlink > 0
        else s.key in h.disk && h.disk[s.key].nlink > 0)
  }

  ghost predicate Thrifty(h: Cache)
    requires Sane(h)
  {
    forall u {:trigger Leaving(h, u)} :: Leaving(h, u) ==> LeavesWell(h, u)
  }

  predicate Leaving(h: Cache, u: nat) {
    u in h.users && PastFreeing(h.users[u])
  }

  ghost predicate LeavesWell(h: Cache, u: nat)
    requires Sane(h) && Leaving(h, u)
  {
    var p := h.ptrs[h.users[u].t];
    Excused(h, h.slots[At(h, u)], p) && (h.users[u].Invalidating? ==> p.freed)
  }

  /** The last to leave an entry leaks nothing. */
  lemma ThriftyLeaksNothing(h: Cache, m: Move, key: Key)
    requires Ok(h) && Thrifty(h) && Allowed(h, m)
    ensures !DropsUnlinked(h, m, key)
  {
    if m.Go? && h.users[m.u].PutDrop? {
      var u, t, i := m.u, h.users[m.u].t, At(h, m.u);
      BusyFacts(h, u, t, i);
      assert Leaving(h, u) && SlotOk(h, i, h.slots[i]);
      if h.slots[i].ref == 1 && h.slots[i].lock.Some? {
        OnlyToken(h.ptrs, t, h.users[h.slots[i].lock.value].t, i);
        assert UserOk(h, h.slots[i].lock.value, h.users[h.slots[i].lock.value]);
      }
    }
  }

  lemma TwoUsers(h: Cache, u: nat, v: nat)
    requires Ok(h) && u in h.users && v in h.users && u != v && Token(h.users[u]).Some? && Token(h.users[v]).Some?
    requires At(h, u) == At(h, v) && Putting(h.users[v])
    ensures h.slots[At(h, u)].ref >= 2
  {
    var i, t, t' := At(h, u), h.users[u].t, h.users[v].t;
    assert UserOk(h, u, h.users[u]) && UserOk(h, v, h.users[v]) && SlotOk(h, i, h.slots[i]) && TokenOk(h, t, h.ptrs[t]);
    if h.slots[i].ref == 1 {
      OnlyToken(h.ptrs, t, t', i);
    }
  }

  /**
   * What keeps the reason of user v: its pointer stays, and its entry
   * and inode stay as they are or the entry has two pointers.
   */
  lemma WellStays(h: Cache, g: Cache, v: nat)
    requires Sane(h) && Sane(g) && Leaving(h, v) && LeavesWell(h, v) && v in g.users && g.users[v] == h.users[v]
    requires g.ptrs[h.users[v].t] == h.ptrs[h.users[v].t] && |g.slots| == |h.slots|
    requires var s, s' := h.slots[At(h, v)], g.slots[At(h, v)];
             || s'.ref >= 2
             || (&& s'.ref == s.ref && s'.key == s.key && s'.valid == s.valid && s'.dino == s.dino && s.key in h.disk
               && s.key in g.disk
                 && (g.disk[s.key] == h.disk[s.key] || (h.ptrs[h.users[v].t].freed && s.key in g.claimed))
                 && (s.key in h.claimed ==> s.key in g.claimed))
    ensures LeavesWell(g, v)
  {
  }

  /** Another user's step in an entry. */
  lemma OthersLeaveWell(h: Cache, g: Cache, u: nat, v: nat)
    requires Ok(h) && Sane(g) && NoOverlap(h) && Thrifty(h) && Leaving(h, v) && u != v && u in h.users
      && Token(h.users[u]).Some?
    requires u in g.users && g.users == h.users[u := g.users[u]] && g.claimed == h.claimed && |g.slots| == |h.slots|
      && g.disk.Keys == h.disk.Keys
    requires (forall t :: t in h.ptrs && t != h.users[u].t ==> t in g.ptrs && g.ptrs[t] == h.ptrs[t])
    requires (forall j :: 0 <= j < |h.slots| && j != At(h, u) ==> g.slots[j] == h.slots[j])
    requires (forall k :: k in h.disk && k != h.slots[At(h, u)].key ==> g.disk[k] == h.disk[k])
    requires g.slots[At(h, u)].ref == h.slots[At(h, u)].ref || (h.users[u].PutDrop? && InStretch(h.users[u]))
    ensures LeavesWell(g, v)
  {
    var i, j := At(h, u), At(h, v);
    BusyFacts(h, u, h.users[u].t, i);
    BusyFacts(h, v, h.users[v].t, j);
    if i == j {
      TwoUsers(h, u, v);
    } else {
      assert i < j ==> !Live(h.slots[j], h.slots[i].key);
      assert j < i ==> !Live(h.slots[i], h.slots[j].key);
    }
    assert UserOk(h, u, h.users[u]) && UserOk(h, v, h.users[v]);
    WellStays(h, g, v);
  }

  /** A step that gives out a pointer. */
  lemma GettingLeavesWell(h: Cache, g: Cache, i: nat, v: nat)
    requires Ok(h) && Sane(g) && Thrifty(h) && Leaving(h, v) && v in g.users && g.users[v] == h.users[v]
      && g.disk == h.disk
    requires i < |h.slots| == |g.slots| && (forall t :: t in h.ptrs ==> t in g.ptrs && g.ptrs[t] == h.ptrs[t])
    requires (forall j :: 0 <= j < |h.slots| && j != i ==> g.slots[j] == h.slots[j])
      && (h.slots[i].ref > 0 ==> g.slots[i].ref == h.slots[i].ref + 1)
    requires forall k :: k in h.claimed ==> k in g.claimed || (h.slots[At(h, v)].key == k ==> i == At(h, v))
    ensures LeavesWell(g, v)
  {
    BusyFacts(h, v, h.users[v].t, At(h, v));
    WellStays(h, g, v);
  }

  /** Which entry iget settles on when one is in use for the inode. */
  lemma ChoosesLive(h: Cache, key: Key, i: nat)
    requires Ok(h) && i < |h.slots| && Live(h.slots[i], key)
    ensures Choose(h.slots, key) == Some(i)
  {
    var r := Choose(h.slots, key);
    assert r.Some?;
    var j := r.value;
    assert Live(h.slots[j], key) && j <= i;
    assert Live(h.slots[i], h.slots[j].key);
  }

  lemma IgetLeavesWell(h: Cache, u: nat, key: Key, t: nat, v: nat)
    requires Ok(h) && Thrifty(h) && Leaving(h, v) && u in h.users && !Leaving(h, u) && t !in h.ptrs && key in h.disk
    ensures var g := WithPtr(h, u, key, t); Sane(g) ==> Leaving(g, v) && LeavesWell(g, v)
  {
    var r, g := Choose(h.slots, key), WithPtr(h, u, key, t);
    if Sane(g) {
      BusyFacts(h, v, h.users[v].t, At(h, v));
      if r.None? {
        WellStays(h, g, v);
      } else {
        GettingLeavesWell(h, g, r.value, v);
      }
    }
  }

  lemma AllocIgetLeavesWell(h: Cache, u: nat, t: nat, v: nat)
    requires Ok(h) && Thrifty(h) && Leaving(h, v) && Allowed(h, AllocIget(u, t))
    ensures var g := Step(h, AllocIget(u, t)); Sane(g) ==> Leaving(g, v) && LeavesWell(g, v)
  {
    var g := Step(h, AllocIget(u, t));
    if Sane(g) {
      BusyFacts(h, v, h.users[v].t, At(h, v));
      if Choose(h.slots, h.users[u].key).None? {
        WellStays(h, g, v);
      } else {
        AllocGotLeavesWell(h, g, u, t, v);
      }
    }
  }

  lemma AllocGotLeavesWell(h: Cache, g: Cache, u: nat, t: nat, v: nat)
    requires Ok(h) && Thrifty(h) && Leaving(h, v) && Allowed(h, AllocIget(u, t))
      && Choose(h.slots, h.users[u].key).Some?
    requires g == Step(h, AllocIget(u, t)) && Sane(g)
    ensures Leaving(g, v) && LeavesWell(g, v)
  {
    var key := h.users[u].key;
    BusyFacts(h, v, h.users[v].t, At(h, v));
    if h.slots[At(h, v)].key == key {
      ChoosesLive(h, key, At(h, v));
    }
    GettingLeavesWell(h, g, Choose(h.slots, key).value, v);
  }

  /** What user u itself comes to. */
  lemma SelfLeavesWell(h: Cache, u: nat)
    requires Ok(h) && Thrifty(h) && Allowed(h, Go(u)) && TestsKnown(h, Go(u))
    ensures var g := Advance(h, u); Sane(g) && Leaving(g, u) ==> LeavesWell(g, u)
  {
    BusyFacts(h, u, h.users[u].t, At(h, u));
    if Leaving(h, u) {
      assert LeavesWell(h, u);
    }
  }

  lemma GoLeavesWell(h: Cache, u: nat, v: nat)
    requires Ok(h) && Thrifty(h) && NoOverlap(h) && Allowed(h, Go(u)) && TestsKnown(h, Go(u))
    requires Sane(Advance(h, u)) && Leaving(Advance(h, u), v)
    ensures LeavesWell(Advance(h, u), v)
  {
    if u == v {
      SelfLeavesWell(h, u);
    } else {
      BusyFacts(h, u, h.users[u].t, At(h, u));
      OthersLeaveWell(h, Advance(h, u), u, v);
    }
  }

  lemma HolderLeavesWell(h: Cache, m: Move, v: nat)
    requires Ok(h) && Thrifty(h) && NoOverlap(h) && Allowed(h, m) && (m.Edit? || m.Flush? || m.Unlock?)
    requires Sane(Step(h, m)) && Leaving(Step(h, m), v)
    ensures LeavesWell(Step(h, m), v)
  {
    assert Leaving(h, v);
    BusyFacts(h, m.u, h.users[m.u].t, At(h, m.u));
    OthersLeaveWell(h, Step(h, m), m.u, v);
  }

  /** Moves that leave every entry as it is, and a further pointer to an entry. */
  lemma QuietLeavesWell(h: Cache, m: Move, v: nat)
    requires Ok(h) && Thrifty(h) && Allowed(h, m) && (m.Alloc? || m.Put? || m.Lock? || m.Name? || m.Dup?)
    requires Sane(Step(h, m)) && Leaving(Step(h, m), v)
    ensures LeavesWell(Step(h, m), v)
  {
    assert Leaving(h, v) && UserOk(h, v, h.users[v]);
    BusyFacts(h, v, h.users[v].t, At(h, v));
    if m.Dup? {
      assert TokenOk(h, m.src, h.ptrs[m.src]);
      GettingLeavesWell(h, Step(h, m), h.ptrs[m.src].slot, v);
    } else {
      WellStays(h, Step(h, m), v);
    }
  }

  lemma NewLeavesWell(h: Cache, m: Move, v: nat)
    requires Ok(h) && Thrifty(h) && Allowed(h, m) && (m.Iget? || m.AllocIget?) && Sane(Step(h, m))
      && Leaving(Step(h, m), v)
    ensures LeavesWell(Step(h, m), v)
  {
    assert Leaving(h, v);
    match m
    case Iget(u, key, t) => IgetLeavesWell(h, u, key, t, v);
    case AllocIget(u, t) => AllocIgetLeavesWell(h, u, t, v);
  }

  lemma ThriftyStep(h: Cache, m: Move)
    requires Ok(h) && Thrifty(h) && NoOverlap(h) && Allowed(h, m) && TestsKnown(h, m)
    ensures Ok(Step(h, m)) && Thrifty(Step(h, m))
  {
    StepKeeps(h, m);
    var g := Step(h, m);
    forall v | Leaving(g, v)
      ensures LeavesWell(g, v)
    {
      if m.Go? {
        GoLeavesWell(h, m.u, v);
      } else if m.Iget? || m.AllocIget? {
        NewLeavesWell(h, m, v);
      } else if m.Edit? || m.Flush? || m.Unlock? {
        HolderLeavesWell(h, m, v);
      } else {
        QuietLeavesWell(h, m, v);
      }
    }
  }

  /**
   * In every state of the run no two iputs overlap on an entry, and
   * none tests an unlinked inode's entry that is not valid.
   */
  predicate Orderly(h: Cache, moves: seq<Move>)
    decreases |moves|
  {
    && Sane(h) && NoOverlap(h)
    && (moves != [] ==> (Allowed(h, moves[0]) ==> TestsKnown(h, moves[0])) && Orderly(Turned(h, moves[0]), moves[1..]))
  }

  lemma {:induction false} OrderlyFrom(h: Cache, key: Key, moves: seq<Move>)
    requires Ok(h) && Thrifty(h) && Orderly(h, moves) && !Leaked(h, key)
    ensures !Leaked(Run(h, moves), key)
    decreases |moves|
  {
    if moves != [] {
      var m := moves[0];
      if Allowed(h, m) {
        LeaksExactlyWhen(h, m, key);
        ThriftyLeaksNothing(h, m, key);
        ThriftyStep(h, m);
      }
      OrderlyFrom(Turned(h, m), key, moves[1..]);
    }
  }

  /** Orderly runs leak nothing: every inode that has become unlinked and unused has been freed. */
  lemma OrderlyRunsLeakNothing(h: Cache, key: Key, moves: seq<Move>)
    requires Opening(h) && Orderly(h, moves) && !Leaked(h, key)
    ensures !Leaked(Run(h, moves), key)
  {
    OpeningOk(h);
    OrderlyFrom(h, key, moves);
  }

  // ----- Two overlapping iputs leak an unlinked inode

  lemma LeakStays(h: Cache, key: Key, m: Move)
    requires Sane(h) && Leaked(h, key) && Allowed(h, m) && (m.AllocIget? ==> h.users[m.u].key in h.claimed)
    requires m.Dup? ==> h.slots[h.ptrs[m.src].slot].ref > 0
    ensures Leaked(Step(h, m), key)
  {
    match m
    case Iget(u, k, t) => assert k != key;
    case AllocIget(u, t) => assert h.users[u].key != key;
    case Name(named) => assert !Linked(h, key);
    case Go(u) => GoKeepsLeak(h, key, u);
    case _ =>
  }

  lemma GoKeepsLeak(h: Cache, key: Key, u: nat)
    requires Sane(h) && Leaked(h, key) && Allowed(h, Go(u))
    ensures Leaked(Advance(h, u), key)
  {
    assert !Live(h.slots[At(h, u)], key);
  }

  /** Nothing that the kernel does later frees a leaked inode. */
  lemma {:induction false} LeakIsForever(h: Cache, key: Key, moves: seq<Move>)
    requires Ok(h) && Leaked(h, key)
    ensures Leaked(Run(h, moves), key)
    decreases |moves|
  {
    if moves != [] {
      var m := moves[0];
      if Allowed(h, m) {
        if m.AllocIget? {
          assert UserOk(h, m.u, h.users[m.u]);
        } else if m.Dup? {
          assert TokenOk(h, m.src, h.ptrs[m.src]);
        }
        LeakStays(h, key, m);
        StepKeeps(h, m);
      }
      LeakIsForever(Turned(h, m), key, moves[1..]);
    }
  }

  lemma {:induction false} RunAppend(h: Cache, a: seq<Move>, b: seq<Move>)
    ensures Run(h, a + b) == Run(Run(h, a), b)
    decreases |a|
  {
    if a == [] {
      assert a + b == b;
    } else {
      assert (a + b)[1..] == a[1..] + b;
      RunAppend(Turned(h, a[0]), a[1..], b);
    }
  }

  /** User u comes to its last step while v runs all of its iput, so that each sees the other's pointer. */
  function LeakMoves(u: nat, t: nat, v: nat, t': nat): seq<Move> {
    (([Put(u, t)] + Alone(u, 4)) + ([Put(v, t')] + Alone(v, 8))) + Alone(u, 1)
  }

  lemma CountToDrop(h: Cache, u: nat, t: nat, i: nat, s: Slot, d: Dinode)
    requires MidOk(h, u, t, i, s, d, false, PutCount(t)) && s.ref > 1
    ensures Run(Mid(h, u, t, i, s, d, false, PutCount(t)), Alone(u, 2)) ==
      Mid(h, u, t, i, s.(lock := None), d, false, PutDrop(t))
  {
    var s' := s.(lock := None);
    MidOne(h, u, t, i, s, d, false, PutCount(t), (s, d, false, PutRelease(t)), 2);
    MidOne(h, u, t, i, s, d, false, PutRelease(t), (s', d, false, PutDrop(t)), 1);
  }

  lemma MidToDrop(h: Cache, u: nat, t: nat, i: nat, s: Slot, d: Dinode)
    requires MidOk(h, u, t, i, s, d, false, PutWant(t)) && s.lock.None? && s.valid && s.dino.nlink == 0 && s.ref > 1
    ensures Run(Mid(h, u, t, i, s, d, false, PutWant(t)), Alone(u, 4)) == Mid(h, u, t, i, s, d, false, PutDrop(t))
  {
    var s' := s.(lock := Some(u));
    assert s'.(lock := None) == s;
    MidOne(h, u, t, i, s, d, false, PutWant(t), (s', d, false, PutTest(t)), 4);
    MidUnlinked(h, u, t, i, s', d, 2);
    CountToDrop(h, u, t, i, s', d);
  }

  /** The state when user u is about to take its last step. */
  lemma FirstWaits(h: Cache, u: nat, t: nat, i: nat)
    requires AtRest(h, u, t, i) && h.slots[i].valid && h.slots[i].dino.nlink == 0 && h.slots[i].ref == 2
    ensures Run(h, [Put(u, t)] + Alone(u, 4)) ==
      h.(users := h.users[u := PutDrop(t)], ptrs := h.ptrs[t := Ptr(i, Some(u), false)])
  {
    var s := h.slots[i];
    AtRestFacts(h, u, t, i);
    PutStarts(h, u, t, i, 4);
    MidToDrop(h, u, t, i, s, h.disk[s.key]);
    assert h.slots[i := s] == h.slots;
    assert h.disk[s.key := h.disk[s.key]] == h.disk;
  }

  lemma LastDrops(m: Cache, u: nat, t: nat, i: nat)
    requires Busy(m, u, t, i) && m.users[u] == PutDrop(t) && m.slots[i].ref > 0
    ensures Run(m, Alone(u, 1)) == Dropped(m, u, t, i)
  {
    MidDrop(m, u, t, i, 1);
  }

  /**
   * Two iputs of the last two pointers to an unlinked inode: if each tests the count before the other gives its pointer
   * back, neither frees the inode.
   */
  lemma OverlappingPutsLeak(h: Cache, u: nat, t: nat, v: nat, t': nat, i: nat)
    requires AtRest(h, u, t, i) && AtRest(h, v, t', i) && u != v && t != t'
    requires h.slots[i].valid && h.slots[i].dino.nlink == 0 && h.slots[i].ref == 2
    ensures Leaked(Run(h, LeakMoves(u, t, v, t')), h.slots[i].key)
  {
    var a, b := [Put(u, t)] + Alone(u, 4), [Put(v, t')] + Alone(v, 8);
    RunAppend(h, a + b, Alone(u, 1));
    RunAppend(h, a, b);
    FirstWaits(h, u, t, i);
    RunKeeps(h, a);
    var m := Run(h, a);
    SecondPuts(h, m, u, t, v, t', i);
    var n := Run(m, b);
    LastDrops(n, u, t, i);
    LeftBehind(h, n, u, t, i);
  }

  lemma SecondPuts(h: Cache, m: Cache, u: nat, t: nat, v: nat, t': nat, i: nat)
    requires AtRest(h, v, t', i) && u != v && t != t' && u in h.users && h.users[u].Away? && t in h.ptrs
      && h.ptrs[t].slot == i
    requires h.slots[i].ref == 2 && Ok(m)
      && m == h.(users := h.users[u := PutDrop(t)], ptrs := h.ptrs[t := Ptr(i, Some(u), false)])
    ensures var n := Run(m, [Put(v, t')] + Alone(v, 8));
            && n.slots == h.slots[i := h.slots[i].(ref := 1)] && n.disk == h.disk && n.named == h.named
            && n.claimed == h.claimed
            && Busy(n, u, t, i) && n.users[u] == PutDrop(t)
  {
    assert AtRest(m, v, t', i);
    PutFreesExactlyWhen(m, v, t', i);
    AtRestFacts(m, v, t', i);
    RunKeeps(m, [Put(v, t')] + Alone(v, 8));
  }

  lemma LeftBehind(h: Cache, n: Cache, u: nat, t: nat, i: nat)
    requires Ok(h) && t in h.ptrs && h.ptrs[t].slot == i && h.ptrs[t].putter.None? && i < |h.slots| && h.slots[i].valid
    requires h.slots[i].lock.None? && h.slots[i].dino.nlink == 0
    requires n.slots == h.slots[i := h.slots[i].(ref := 1)] && n.disk == h.disk && n.named == h.named
      && n.claimed == h.claimed
    ensures Leaked(Dropped(n, u, t, i), h.slots[i].key)
  {
    var key := h.slots[i].key;
    assert TokenOk(h, t, h.ptrs[t]) && SlotOk(h, i, h.slots[i]);
    assert !Linked(h, key);
    forall j | 0 <= j < |h.slots| && j != i ensures !Live(h.slots[j], key) {
      assert i < j ==> !Live(h.slots[j], h.slots[i].key);
      assert j < i && h.slots[j].ref > 0 ==> !Live(h.slots[i], h.slots[j].key);
    }
  }

  /** User u works on entry 0 of a cache that is otherwise as in h. */
  function Scene(h: Cache, u: nat, ptrs: map<nat, Ptr>, s: Slot, d: Dinode, named: set<Key>, pc: Pc): Cache
    requires |h.slots| > 0
  {
    h.(slots := h.slots[0 := s], users := h.users[u := pc], ptrs := ptrs, disk := h.disk[s.key := d], named := named)
  }

  /** One user opens the inode, another gets a second pointer, and the first unlinks it. */
  function UnlinkMoves(h: Cache, u: nat, key: Key, t: nat, t': nat): seq<Move>
    requires key in h.disk
  {
    [Iget(u, key, t), Dup(t, t'), Lock(u, t)] + ([Go(u), Go(u), Name(h.named - {key})]
      + [Edit(u, h.disk[key].(nlink := 0)), Flush(u), Unlock(u)])
  }

  lemma Opens(h: Cache, u: nat, key: Key, t: nat, t': nat)
    requires Opening(h) && |h.slots| > 0 && key in h.named && u in h.users && t != t'
    ensures Choose(h.slots, key) == Some(0)
    ensures var s := h.slots[0].(key := key, ref := 2, valid := false);
            var ptrs := map[t := Ptr(0, None, false), t' := Ptr(0, None, false)];
            Run(h, [Iget(u, key, t), Dup(t, t'), Lock(u, t)]) == Scene(h, u, ptrs, s, h.disk[key], h.named, WantLock(t))
  {
    var m := [Iget(u, key, t), Dup(t, t'), Lock(u, t)];
    var s1 := h.slots[0].(key := key, ref := 1, valid := false);
    var p1 := map[t := Ptr(0, None, false)];
    var h1 := Scene(h, u, p1, s1, h.disk[key], h.named, Away);
    OpensFirst(h, u, key, t);
    var h2 := Scene(h, u, p1[t' := Ptr(0, None, false)], s1.(ref := 2), h.disk[key], h.named, Away);
    assert Turned(h1, m[1]) == h2;
    assert Turned(h2, m[2]) == Scene(h, u, h2.ptrs, h2.slots[0], h.disk[key], h.named, WantLock(t));
    RunThree(h, m[0], m[1], m[2]);
  }

  lemma OpensFirst(h: Cache, u: nat, key: Key, t: nat)
    requires Opening(h) && |h.slots| > 0 && key in h.named && u in h.users
    ensures Choose(h.slots, key) == Some(0)
    ensures Turned(h, Iget(u, key, t))
              == Scene(h, u, map[t := Ptr(0, None, false)], h.slots[0].(key := key, ref := 1, valid := false),
                h.disk[key], h.named, Away)
  {
    assert h.users[u := Away] == h.users && h.disk[key := h.disk[key]] == h.disk;
  }

  lemma RunThree(h: Cache, a: Move, b: Move, c: Move)
    ensures Run(h, [a, b, c]) == Turned(Turned(Turned(h, a), b), c)
  {
    var h1 := Turned(h, a);
    var h2 := Turned(h1, b);
    assert [a, b, c][1..] == [b, c];
    assert Run(h, [a, b, c]) == Run(h1, [b, c]);
    assert [b, c][1..] == [c];
    assert Run(h1, [b, c]) == Run(h2, [c]);
    assert [c][1..] == [];
    assert Run(h2, [c]) == Run(Turned(h2, c), []);
  }

  lemma TakesLock(h: Cache, u: nat, t: nat, ptrs: map<nat, Ptr>, s: Slot, d: Dinode)
    requires |h.slots| > 0 && s.ref > 0 && s.lock.None? && t in ptrs && ptrs[t].slot == 0 && u in h.users
    requires Sane(Scene(h, u, ptrs, s, d, h.named, WantLock(t)))
    ensures Turned(Scene(h, u, ptrs, s, d, h.named, WantLock(t)), Go(u)) ==
      Scene(h, u, ptrs, s.(lock := Some(u)), d, h.named, Filling(t))
  {
  }

  lemma ReadsInode(h: Cache, u: nat, t: nat, ptrs: map<nat, Ptr>, s: Slot, d: Dinode)
    requires |h.slots| > 0 && s.ref > 0 && !s.valid && d.kind != 0 && t in ptrs && ptrs[t].slot == 0 && u in h.users
    requires Sane(Scene(h, u, ptrs, s, d, h.named, Filling(t)))
    ensures Turned(Scene(h, u, ptrs, s, d, h.named, Filling(t)), Go(u))
              == Scene(h, u, ptrs, s.(valid := true, dino := d), d, h.named, Holding(t, false))
  {
  }

  lemma Fills(h: Cache, u: nat, key: Key, t: nat, ptrs: map<nat, Ptr>, s: Slot)
    requires |h.slots| > 0 && s.ref > 0 && s.key == key && !s.valid && s.lock.None? && key in h.disk && u in h.users
      && t in ptrs
    requires ptrs[t].slot == 0 && h.disk[key].kind != 0 && Sane(Scene(h, u, ptrs, s, h.disk[key], h.named, WantLock(t)))
    requires forall k :: k in h.named - {key} ==> Linked(Scene(h, u, ptrs, s, h.disk[key], h.named, WantLock(t)), k)
    ensures Run(Scene(h, u, ptrs, s, h.disk[key], h.named, WantLock(t)), [Go(u), Go(u), Name(h.named - {key})])
              == Scene(h, u, ptrs, s.(lock := Some(u), valid := true, dino := h.disk[key]), h.disk[key],
                h.named - {key}, Holding(t, false))
  {
    var d := h.disk[key];
    var h0 := Scene(h, u, ptrs, s, d, h.named, WantLock(t));
    var h1 := Scene(h, u, ptrs, s.(lock := Some(u)), d, h.named, Filling(t));
    var h2 := Scene(h, u, ptrs, s.(lock := Some(u), valid := true, dino := d), d, h.named, Holding(t, false));
    TakesLock(h, u, t, ptrs, s, d);
    ReadsInode(h, u, t, ptrs, s.(lock := Some(u)), d);
    forall k | k in h.named - {key} ensures Linked(h2, k) {
      assert Linked(h0, k);
    }
    RunThree(h0, Go(u), Go(u), Name(h.named - {key}));
  }

  lemma Unlinks(h: Cache, u: nat, key: Key, t: nat, ptrs: map<nat, Ptr>, s: Slot, named: set<Key>)
    requires |h.slots| > 0 && s.ref > 0 && s.key == key && s.valid && s.lock == Some(u) && key in h.disk
      && u in h.users && t in ptrs
    requires ptrs[t].slot == 0 && h.disk[key].kind != 0 && key !in named && s.dino == h.disk[key]
    requires Sane(Scene(h, u, ptrs, s, h.disk[key], named, Holding(t, false)))
    ensures var d := h.disk[key].(nlink := 0);
            Run(Scene(h, u, ptrs, s, h.disk[key], named, Holding(t, false)), [Edit(u, d), Flush(u), Unlock(u)])
              == Scene(h, u, ptrs, s.(lock := None, dino := d), d, named, Away)
  {
    var d := h.disk[key].(nlink := 0);
    var h0 := Scene(h, u, ptrs, s, h.disk[key], named, Holding(t, false));
    var h1 := Scene(h, u, ptrs, s.(dino := d), h.disk[key], named, Holding(t, true));
    var h2 := Scene(h, u, ptrs, s.(dino := d), d, named, Holding(t, false));
    assert Turned(h0, Edit(u, d)) == h1;
    assert Turned(h1, Flush(u)) == h2;
    RunThree(h0, Edit(u, d), Flush(u), Unlock(u));
  }

  lemma AfterUnlink(h: Cache, u: nat, key: Key, t: nat, t': nat)
    requires Opening(h) && |h.slots| > 0 && key in h.named && u in h.users && t != t'
    ensures var d := h.disk[key].(nlink := 0);
            Run(h, UnlinkMoves(h, u, key, t, t')) ==
              Scene(h, u, map[t := Ptr(0, None, false), t' := Ptr(0, None, false)],
              h.slots[0].(key := key, ref := 2, valid := true, dino := d), d, h.named - {key}, Away)
  {
    var a, b := [Iget(u, key, t), Dup(t, t'), Lock(u, t)], [Go(u), Go(u), Name(h.named - {key})];
    var c := [Edit(u, h.disk[key].(nlink := 0)), Flush(u), Unlock(u)];
    var ptrs := map[t := Ptr(0, None, false), t' := Ptr(0, None, false)];
    var s := h.slots[0].(key := key, ref := 2, valid := false);
    RunAppend(h, a, b + c);
    Opens(h, u, key, t, t');
    RunAppend(Run(h, a), b, c);
    Fills(h, u, key, t, ptrs, s);
    Unlinks(h, u, key, t, ptrs, s.(lock := Some(u), valid := true, dino := h.disk[key]), h.named - {key});
  }

  /** So iput's promise to free an inode that has no links and no other references is not kept in every run. */
  lemma SomeRunLeaks(h: Cache, key: Key, u: nat, v: nat, t: nat, t': nat)
    requires Opening(h) && |h.slots| > 0 && key in h.named && u in h.users && v in h.users && u != v && t != t'
    ensures Leaked(Run(h, UnlinkMoves(h, u, key, t, t') + LeakMoves(u, t, v, t')), key)
  {
    var moves := UnlinkMoves(h, u, key, t, t');
    OpeningOk(h);
    RunKeeps(h, moves);
    AfterUnlink(h, u, key, t, t');
    RunAppend(h, moves, LeakMoves(u, t, v, t'));
    OverlappingPutsLeak(Run(h, moves), u, t, v, t', 0);
  }
}
