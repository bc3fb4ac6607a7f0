/** Whole runs of the inode cache, and an inode number that is reused while its last iput is under way. */
module InodeRuns {
  import opened Outcomes
  import opened InodeCache
  import opened InodeSteps

  // ----- Runs

  /** A run of the moves; one that the kernel would not make at its turn is skipped. */
  function Run(h: Cache, moves: seq<Move>): Cache
    decreases |moves|
  {
    if moves == [] then h else Run(Turned(h, moves[0]), moves[1..])
  }

  function Turned(h: Cache, m: Move): Cache {
    if Sane(h) && Allowed(h, m) then Step(h, m) else h
  }

  lemma {:induction false} RunKeeps(h: Cache, moves: seq<Move>)
    requires Ok(h)
    ensures Ok(Run(h, moves))
    decreases |moves|
  {
    if moves != [] {
      if Allowed(h, moves[0]) {
        StepKeeps(h, moves[0]);
      }
      RunKeeps(Turned(h, moves[0]), moves[1..]);
    }
  }

  /** An empty cache: no entry is in use, no user is at work, and every named inode has links. */
  ghost predicate Opening(h: Cache) {
    && h.ptrs == map[] && h.claimed == map[]
    && (forall i :: 0 <= i < |h.slots| ==> h.slots[i].ref == 0 && h.slots[i].lock.None?)
    && (forall u :: u in h.users ==> h.users[u].Away?)
    && (forall key :: key in h.named ==> key in h.disk && h.disk[key].kind != 0 && h.disk[key].nlink > 0)
  }

  lemma OpeningOk(h: Cache)
    requires Opening(h)
    ensures Ok(h)
  {
    forall i | 0 <= i < |h.slots| ensures SlotOk(h, i, h.slots[i]) {
      assert Tokens(h.ptrs, i) == {};
    }
  }

  /**
   * In every run: one entry in use for an inode; an entry's count is the number of pointers to it; ilock never finds an
   * inode without a type; whoever holds an inode and has not edited it sees what is on disk; and an iput that truncates
   * holds the only pointer to an inode that no directory names.
   */
  lemma EveryRun(h: Cache, moves: seq<Move>)
    requires Opening(h)
    ensures var g := Run(h, moves);
            && (forall i, j :: 0 <= i < j < |g.slots| && g.slots[i].ref > 0 && g.slots[j].ref > 0 ==>
               g.slots[i].key != g.slots[j].key)
            && (forall i :: 0 <= i < |g.slots| ==> g.slots[i].ref == |Tokens(g.ptrs, i)|)
            && Sane(g) && (forall u :: u in g.users ==> Safe(g, u))
  {
    OpeningOk(h);
    RunKeeps(h, moves);
    var g := Run(h, moves);
    forall i, j | 0 <= i < j < |g.slots| && g.slots[i].ref > 0
      && g.slots[j].ref > 0 ensures g.slots[i].key != g.slots[j].key {
      assert !Live(g.slots[j], g.slots[i].key);
    }
    forall i | 0 <= i < |g.slots| ensures g.slots[i].ref == |Tokens(g.ptrs, i)| {
      assert SlotOk(g, i, g.slots[i]);
    }
    forall u | u in g.users ensures Safe(g, u) {
      UserIsSafe(g, u);
    }
  }

  ghost predicate Safe(g: Cache, u: nat)
    requires Sane(g) && u in g.users
  {
    var pc := g.users[u];
    && !pc.NoType?
    && (Token(pc).Some? ==>
          var s := g.slots[At(g, u)];
          && (pc.Holding? && !pc.dirty ==> s.key in g.disk && s.dino == g.disk[s.key] && s.dino.kind != 0)
          && (pc.Truncating? || pc.Clearing? ==> Tokens(g.ptrs, At(g, u)) == {pc.t} && s.key !in g.named))
  }

  lemma UserIsSafe(g: Cache, u: nat)
    requires Ok(g) && u in g.users
    ensures Safe(g, u)
  {
    var pc := g.users[u];
    assert UserOk(g, u, pc);
    if Token(pc).Some? {
      var t, i := pc.t, At(g, u);
      BusyFacts(g, u, t, i);
      assert SlotOk(g, i, g.slots[i]);
      if pc.Truncating? || pc.Clearing? {
        forall k | k in Tokens(g.ptrs, i) ensures k == t {
          OnlyToken(g.ptrs, k, t, i);
        }
        assert Tokens(g.ptrs, i) == {t};
      }
    }
  }

  // ----- An inode number reused while the last iput is still under way

  /** Filling the entry gives the inode as it is on disk, and the inode has a type. */
  lemma LockGivesDiskCopy(h: Cache, u: nat)
    requires Ok(h) && u in h.users && h.users[u].Filling?
    ensures Allowed(h, Go(u))
    ensures var g, i := Advance(h, u), At(h, u);
            && g.users[u] == Holding(h.users[u].t, false) && g.disk == h.disk && g.slots[i].valid
            && h.slots[i].key in h.disk && g.slots[i].dino == h.disk[h.slots[i].key] && g.slots[i].dino.kind != 0
  {
    BusyFacts(h, u, h.users[u].t, At(h, u));
  }

  /**
   * ialloc's iget of the inode it has claimed: if an entry is in use for it, that entry has one pointer, whose iput has
   * written the freed inode, and the entry is marked invalid already or will be before its lock is released.
   */
  lemma ReuseFindsEntry(h: Cache, u: nat, t: nat, i: nat)
    requires Ok(h) && Allowed(h, AllocIget(u, t)) && i < |h.slots| && Live(h.slots[i], h.users[u].key)
    ensures var g := Step(h, AllocIget(u, t)); t in g.ptrs && g.ptrs[t].slot == i && g.slots[i].ref == 2
    ensures h.slots[i].valid ==>
              h.slots[i].lock.Some? && h.slots[i].lock.value in h.users && h.users[h.slots[i].lock.value].Invalidating?
    ensures exists k, v ::
      Tokens(h.ptrs, i) == {k} && v in h.users && PastFreeing(h.users[v]) && Token(h.users[v]) == Some(k)
  {
    var key := h.users[u].key;
    assert UserOk(h, u, h.users[u]) && SlotOk(h, i, h.slots[i]);
    var k :| k in Tokens(h.ptrs, i);
    assert TokenOk(h, k, h.ptrs[k]);
    var v := h.ptrs[k].putter.value;
    BusyFacts(h, v, k, i);
    forall k' | k' in Tokens(h.ptrs, i) ensures k' == k {
      OnlyToken(h.ptrs, k', k, i);
    }
    assert Tokens(h.ptrs, i) == {k};
    var r := Choose(h.slots, key);
    assert r == Some(i) by {
      assert forall j :: 0 <= j < |h.slots| && j != i ==> !Live(h.slots[j], key);
    }
  }
}
