/** When iput frees an inode, and when two of them leak it. */
module InodePuts {
  import opened Outcomes
  import opened FsLayout
  import FsFree
  import opened InodeCache
  import opened InodeSteps
  import opened InodeRuns

  // ----- When iput frees the inode

  /** A run of user u's own steps. */
  function Alone(u: nat, n: nat): (m: seq<Move>)
    ensures |m| == n && forall i :: 0 <= i < n ==> m[i] == Go(u)
  {
    seq(n, i => Go(u))
  }

  /** User u gives back pointer t to entry i: what has changed since it was at rest in h. */
  function Mid(h: Cache, u: nat, t: nat, i: nat, s: Slot, d: Dinode, freed: bool, pc: Pc): Cache
    requires i < |h.slots|
  {
    h.(slots := h.slots[i := s], users := h.users[u := pc], disk := h.disk[s.key := d],
      ptrs := h.ptrs[t := Ptr(i, Some(u), freed)])
  }

  ghost predicate AtRest(h: Cache, u: nat, t: nat, i: nat) {
    Ok(h) && Allowed(h, Put(u, t)) && h.ptrs[t].slot == i && h.slots[i].lock.None?
  }

  lemma AtRestFacts(h: Cache, u: nat, t: nat, i: nat)
    requires AtRest(h, u, t, i)
    ensures h.slots[i].ref > 0 && h.slots[i].key in h.disk && h.disk[h.slots[i].key].kind != 0
    ensures h.slots[i].valid ==> h.slots[i].dino == h.disk[h.slots[i].key]
    ensures Step(h, Put(u, t)) == Mid(h, u, t, i, h.slots[i], h.disk[h.slots[i].key], false, PutWant(t))
  {
    assert TokenOk(h, t, h.ptrs[t]) && SlotOk(h, i, h.slots[i]);
    assert h.disk[h.slots[i].key := h.disk[h.slots[i].key]] == h.disk;
    assert h.slots[i := h.slots[i]] == h.slots;
  }

  /** The entry, the disk, the mark and the place after one step of iput that nobody disturbs. */
  function NextMid(u: nat, t: nat, s: Slot, d: Dinode, freed: bool, pc: Pc): (Slot, Dinode, bool, Pc)
    requires s.ref > 0
  {
    match pc
    case PutWant(_) => (s.(lock := Some(u)), d, freed, PutTest(t))
    case PutTest(_) => (s, d, freed, if s.valid && s.dino.nlink == 0 then PutCount(t) else PutRelease(t))
    case PutCount(_) => (s, d, freed, if s.ref == 1 then Truncating(t) else PutRelease(t))
    case Truncating(_) =>
      var e := s.dino.(addrs := FsFree.NoAddrs(), size := 0);
      (s.(dino := e), e, freed, Clearing(t))
    case Clearing(_) =>
      var e := s.dino.(kind := 0);
      (s.(dino := e), e, true, Invalidating(t))
    case Invalidating(_) => (s.(valid := false), d, freed, PutRelease(t))
    case PutRelease(_) => (s.(lock := None), d, freed, PutDrop(t))
    case _ => (s, d, freed, pc)
  }

  lemma MidInSlot(h: Cache, u: nat, t: nat, i: nat, s: Slot, d: Dinode, freed: bool, pc: Pc, s': Slot, pc': Pc)
    requires i < |h.slots| && t in h.ptrs && Token(pc) == Some(t) && Sane(Mid(h, u, t, i, s, d, freed, pc))
      && s'.key == s.key
    ensures InSlot(Mid(h, u, t, i, s, d, freed, pc), u, s', pc') == Mid(h, u, t, i, s', d, freed, pc')
  {
    var m := Mid(h, u, t, i, s, d, freed, pc);
    assert m.slots[i := s'] == h.slots[i := s'];
    assert m.users[u := pc'] == h.users[u := pc'];
  }

  lemma MidOnDisk(h: Cache, u: nat, t: nat, i: nat, s: Slot, d: Dinode, freed: bool, pc: Pc, e: Dinode, freed': bool,
                  pc': Pc)
    requires i < |h.slots| && t in h.ptrs && Token(pc) == Some(t) && Sane(Mid(h, u, t, i, s, d, freed, pc))
    ensures var m := Mid(h, u, t, i, s, d, freed, pc);
            OnDisk(m, u, e, pc').(ptrs := m.ptrs[t := m.ptrs[t].(freed := freed')]) ==
              Mid(h, u, t, i, s.(dino := e), e, freed', pc')
  {
    var m := Mid(h, u, t, i, s, d, freed, pc);
    MidInSlot(h, u, t, i, s, d, freed, pc, s.(dino := e), pc');
    assert m.disk[s.key := e] == h.disk[s.key := e];
    assert m.ptrs[t := Ptr(i, Some(u), freed')] == h.ptrs[t := Ptr(i, Some(u), freed')];
  }

  lemma MidAdvance(h: Cache, u: nat, t: nat, i: nat, s: Slot, d: Dinode, freed: bool, pc: Pc)
    requires i < |h.slots| && u in h.users && t in h.ptrs && Sane(Mid(h, u, t, i, s, d, freed, pc))
    requires Putting(pc) && Token(pc) == Some(t) && !pc.PutDrop? && s.ref > 0 && (pc.PutWant? ==> s.lock.None?)
    ensures var (s', d', freed', pc') := NextMid(u, t, s, d, freed, pc);
            && Allowed(Mid(h, u, t, i, s, d, freed, pc), Go(u))
            && Advance(Mid(h, u, t, i, s, d, freed, pc), u) == Mid(h, u, t, i, s', d', freed', pc')
  {
    var (s', d', freed', pc') := NextMid(u, t, s, d, freed, pc);
    if pc.Truncating? || pc.Clearing? {
      MidOnDisk(h, u, t, i, s, d, freed, pc, d', freed', pc');
      var m := Mid(h, u, t, i, s, d, freed, pc);
      assert m.ptrs[t := m.ptrs[t]] == m.ptrs;
    } else {
      MidInSlot(h, u, t, i, s, d, freed, pc, s', pc');
    }
  }

  lemma RunGoes(h: Cache, g: Cache, u: nat, n: nat)
    requires Sane(h) && Allowed(h, Go(u)) && g == Advance(h, u) && n > 0
    ensures Run(h, Alone(u, n)) == Run(g, Alone(u, n - 1))
  {
    assert Alone(u, n)[1..] == Alone(u, n - 1);
  }

  lemma {:induction false} AwayStays(h: Cache, u: nat, n: nat)
    requires u in h.users && h.users[u].Away?
    ensures Run(h, Alone(u, n)) == h
    decreases n
  {
    if n > 0 {
      assert Alone(u, n)[1..] == Alone(u, n - 1);
      AwayStays(h, u, n - 1);
    }
  }

  lemma DropIsLast(m: Cache, u: nat, t: nat, i: nat)
    requires Busy(m, u, t, i) && m.users[u] == PutDrop(t) && m.slots[i].ref > 0
    ensures Allowed(m, Go(u)) && Advance(m, u) == Dropped(m, u, t, i)
  {
  }

  lemma MidDrop(m: Cache, u: nat, t: nat, i: nat, n: nat)
    requires Busy(m, u, t, i) && m.users[u] == PutDrop(t) && n > 0 && m.slots[i].ref > 0
    ensures Run(m, Alone(u, n)) == Dropped(m, u, t, i)
  {
    DropIsLast(m, u, t, i);
    var g := Dropped(m, u, t, i);
    RunGoes(m, g, u, n);
    AwayStays(g, u, n - 1);
  }

  /** User u is in its iput at pc, with the entry, the inode on disk and the mark as given. */
  ghost predicate MidOk(h: Cache, u: nat, t: nat, i: nat, s: Slot, d: Dinode, freed: bool, pc: Pc) {
    && i < |h.slots| && u in h.users && t in h.ptrs && s.ref > 0 && Putting(pc) && Token(pc) == Some(t)
    && Sane(Mid(h, u, t, i, s, d, freed, pc))
  }

  lemma MidOkNext(h: Cache, u: nat, t: nat, i: nat, s: Slot, d: Dinode, freed: bool, pc: Pc,
                  r: (Slot, Dinode, bool, Pc))
    requires MidOk(h, u, t, i, s, d, freed, pc) && !pc.PutDrop? && r == NextMid(u, t, s, d, freed, pc)
    ensures MidOk(h, u, t, i, r.0, r.1, r.2, r.3)
  {
    var m, g := Mid(h, u, t, i, s, d, freed, pc), Mid(h, u, t, i, r.0, r.1, r.2, r.3);
    assert g.ptrs.Keys == m.ptrs.Keys && g.disk.Keys == m.disk.Keys && g.users.Keys == m.users.Keys;
    forall k | k in g.ptrs ensures g.ptrs[k].slot < |g.slots| {
      assert m.ptrs[k].slot < |m.slots|;
    }
    forall v | v in g.users && Token(g.users[v]).Some? ensures g.users[v].t in g.ptrs {
      assert v != u ==> m.users[v] == g.users[v];
    }
    forall j | 0 <= j < |g.slots| && g.slots[j].ref > 0 ensures g.slots[j].key in g.disk {
      assert m.slots[j].ref > 0 && m.slots[j].key == g.slots[j].key;
    }
  }

  lemma MidOne(h: Cache, u: nat, t: nat, i: nat, s: Slot, d: Dinode, freed: bool, pc: Pc, r: (Slot, Dinode, bool, Pc),
               n: nat)
    requires MidOk(h, u, t, i, s, d, freed, pc) && n > 0 && !pc.PutDrop? && (pc.PutWant? ==> s.lock.None?)
    requires r == NextMid(u, t, s, d, freed, pc)
    ensures MidOk(h, u, t, i, r.0, r.1, r.2, r.3)
    ensures Run(Mid(h, u, t, i, s, d, freed, pc), Alone(u, n)) ==
      Run(Mid(h, u, t, i, r.0, r.1, r.2, r.3), Alone(u, n - 1))
  {
    MidOkNext(h, u, t, i, s, d, freed, pc, r);
    MidAdvance(h, u, t, i, s, d, freed, pc);
    RunGoes(Mid(h, u, t, i, s, d, freed, pc), Mid(h, u, t, i, r.0, r.1, r.2, r.3), u, n);
  }

  lemma MidRelease(h: Cache, u: nat, t: nat, i: nat, s: Slot, d: Dinode, freed: bool, n: nat, r: Slot)
    requires MidOk(h, u, t, i, s, d, freed, PutRelease(t)) && n > 1 && r == s.(lock := None)
    ensures Run(Mid(h, u, t, i, s, d, freed, PutRelease(t)), Alone(u, n)) ==
      Dropped(Mid(h, u, t, i, r, d, freed, PutDrop(t)), u, t, i)
  {
    MidOne(h, u, t, i, s, d, freed, PutRelease(t), (r, d, freed, PutDrop(t)), n);
    MidDrop(Mid(h, u, t, i, r, d, freed, PutDrop(t)), u, t, i, n - 1);
  }

  lemma MidInvalidate(h: Cache, u: nat, t: nat, i: nat, s: Slot, d: Dinode, r: Slot)
    requires MidOk(h, u, t, i, s, d, true, Invalidating(t)) && r == s.(valid := false, lock := None)
    ensures Run(Mid(h, u, t, i, s, d, true, Invalidating(t)), Alone(u, 3)) ==
      Dropped(Mid(h, u, t, i, r, d, true, PutDrop(t)), u, t, i)
  {
    var s' := s.(valid := false);
    MidOne(h, u, t, i, s, d, true, Invalidating(t), (s', d, true, PutRelease(t)), 3);
    MidRelease(h, u, t, i, s', d, true, 2, r);
  }

  lemma MidClear(h: Cache, u: nat, t: nat, i: nat, s: Slot, d: Dinode, f: Dinode, r: Slot)
    requires MidOk(h, u, t, i, s, d, false, Clearing(t)) && f == s.dino.(kind := 0)
      && r == s.(dino := f, valid := false, lock := None)
    ensures Run(Mid(h, u, t, i, s, d, false, Clearing(t)), Alone(u, 4)) ==
      Dropped(Mid(h, u, t, i, r, f, true, PutDrop(t)), u, t, i)
  {
    var s' := s.(dino := f);
    MidOne(h, u, t, i, s, d, false, Clearing(t), (s', f, true, Invalidating(t)), 4);
    MidInvalidate(h, u, t, i, s', f, r);
  }

  lemma MidTruncate(h: Cache, u: nat, t: nat, i: nat, s: Slot, d: Dinode, e: Dinode, f: Dinode, r: Slot)
    requires MidOk(h, u, t, i, s, d, false, Truncating(t)) && e == s.dino.(addrs := FsFree.NoAddrs(), size := 0)
    requires f == e.(kind := 0) && r == s.(dino := f, valid := false, lock := None)
    ensures Run(Mid(h, u, t, i, s, d, false, Truncating(t)), Alone(u, 5)) ==
      Dropped(Mid(h, u, t, i, r, f, true, PutDrop(t)), u, t, i)
  {
    var s' := s.(dino := e);
    MidOne(h, u, t, i, s, d, false, Truncating(t), (s', e, false, Clearing(t)), 5);
    MidClear(h, u, t, i, s', e, f, r);
  }

  lemma MidSole(h: Cache, u: nat, t: nat, i: nat, s: Slot, d: Dinode, f: Dinode, r: Slot)
    requires MidOk(h, u, t, i, s, d, false, PutCount(t)) && s.ref == 1
    requires f == s.dino.(addrs := FsFree.NoAddrs(), size := 0, kind := 0)
      && r == s.(dino := f, valid := false, lock := None)
    ensures Run(Mid(h, u, t, i, s, d, false, PutCount(t)), Alone(u, 6)) ==
      Dropped(Mid(h, u, t, i, r, f, true, PutDrop(t)), u, t, i)
  {
    var e := s.dino.(addrs := FsFree.NoAddrs(), size := 0);
    MidOne(h, u, t, i, s, d, false, PutCount(t), (s, d, false, Truncating(t)), 6);
    MidTruncate(h, u, t, i, s, d, e, f, r);
  }

  lemma MidShared(h: Cache, u: nat, t: nat, i: nat, s: Slot, d: Dinode, r: Slot)
    requires MidOk(h, u, t, i, s, d, false, PutCount(t)) && s.ref != 1 && r == s.(lock := None)
    ensures Run(Mid(h, u, t, i, s, d, false, PutCount(t)), Alone(u, 6)) ==
      Dropped(Mid(h, u, t, i, r, d, false, PutDrop(t)), u, t, i)
  {
    MidOne(h, u, t, i, s, d, false, PutCount(t), (s, d, false, PutRelease(t)), 6);
    MidRelease(h, u, t, i, s, d, false, 5, r);
  }

  lemma MidLinked(h: Cache, u: nat, t: nat, i: nat, s: Slot, d: Dinode, r: Slot)
    requires MidOk(h, u, t, i, s, d, false, PutTest(t)) && !(s.valid && s.dino.nlink == 0) && r == s.(lock := None)
    ensures Run(Mid(h, u, t, i, s, d, false, PutTest(t)), Alone(u, 7)) ==
      Dropped(Mid(h, u, t, i, r, d, false, PutDrop(t)), u, t, i)
  {
    MidOne(h, u, t, i, s, d, false, PutTest(t), (s, d, false, PutRelease(t)), 7);
    MidRelease(h, u, t, i, s, d, false, 6, r);
  }

  lemma MidUnlinked(h: Cache, u: nat, t: nat, i: nat, s: Slot, d: Dinode, n: nat)
    requires MidOk(h, u, t, i, s, d, false, PutTest(t)) && s.valid && s.dino.nlink == 0
    ensures MidOk(h, u, t, i, s, d, false, PutCount(t))
    ensures Run(Mid(h, u, t, i, s, d, false, PutTest(t)), Alone(u, n + 1)) ==
      Run(Mid(h, u, t, i, s, d, false, PutCount(t)), Alone(u, n))
  {
    MidOne(h, u, t, i, s, d, false, PutTest(t), (s, d, false, PutCount(t)), n + 1);
  }

  lemma MidTest(h: Cache, u: nat, t: nat, i: nat, s: Slot, d: Dinode, r: Slot)
    requires MidOk(h, u, t, i, s, d, false, PutTest(t)) && r == s.(lock := None)
    ensures var e := Dinode(0, 0, 0, FsFree.NoAddrs());
            Run(Mid(h, u, t, i, s, d, false, PutTest(t)), Alone(u, 7)) == Dropped(
              if r.valid && r.dino.nlink == 0 && r.ref == 1 then
                Mid(h, u, t, i, r.(dino := e, valid := false), e, true, PutDrop(t))
              else Mid(h, u, t, i, r, d, false, PutDrop(t)), u, t, i)
  {
    if !(s.valid && s.dino.nlink == 0) {
      MidLinked(h, u, t, i, s, d, r);
    } else {
      MidUnlinked(h, u, t, i, s, d, 6);
      if s.ref == 1 {
        var e := Dinode(0, 0, 0, FsFree.NoAddrs());
        MidSole(h, u, t, i, s, d, e, r.(dino := e, valid := false));
      } else {
        MidShared(h, u, t, i, s, d, r);
      }
    }
  }

  lemma MidRun(h: Cache, u: nat, t: nat, i: nat, s: Slot, d: Dinode)
    requires MidOk(h, u, t, i, s, d, false, PutWant(t))
    requires s.lock.None?
    ensures var e := Dinode(0, 0, 0, FsFree.NoAddrs());
            Run(Mid(h, u, t, i, s, d, false, PutWant(t)), Alone(u, 8)) == Dropped(
              if s.valid && s.dino.nlink == 0 && s.ref == 1 then
                Mid(h, u, t, i, s.(dino := e, valid := false), e, true, PutDrop(t))
              else Mid(h, u, t, i, s, d, false, PutDrop(t)), u, t, i)
  {
    var s1 := s.(lock := Some(u));
    MidOne(h, u, t, i, s, d, false, PutWant(t), (s1, d, false, PutTest(t)), 8);
    MidTest(h, u, t, i, s1, d, s);
  }

  lemma PutStarts(h: Cache, u: nat, t: nat, i: nat, n: nat)
    requires AtRest(h, u, t, i)
    ensures h.slots[i].key in h.disk
    ensures var m := Mid(h, u, t, i, h.slots[i], h.disk[h.slots[i].key], false, PutWant(t));
            && MidOk(h, u, t, i, h.slots[i], h.disk[h.slots[i].key], false, PutWant(t))
            && Run(h, [Put(u, t)] + Alone(u, n)) == Run(m, Alone(u, n))
  {
    AtRestFacts(h, u, t, i);
    StepKeeps(h, Put(u, t));
    var moves := [Put(u, t)] + Alone(u, n);
    assert moves[1..] == Alone(u, n);
  }

  lemma PutResult(h: Cache, u: nat, t: nat, i: nat, s: Slot, d: Dinode, freed: bool)
    requires s.ref > 0 && i < |h.slots| && u in h.users && h.users[u].Away? && t in h.ptrs
    ensures var g := Dropped(Mid(h, u, t, i, s, d, freed, PutDrop(t)), u, t, i);
            && g.users == h.users && g.ptrs == h.ptrs - {t} && g.disk == h.disk[s.key := d]
            && g.slots == h.slots[i := s.(ref := s.ref - 1)] && g.named == h.named && g.claimed == h.claimed
  {
  }

  /**
   * An iput that nobody disturbs gives its pointer back, and frees the inode exactly if the entry is valid and says
   * that there are no links, and the pointer is the only one. It leaves every other entry and inode as they were.
   */
  lemma PutFreesExactlyWhen(h: Cache, u: nat, t: nat, i: nat)
    requires AtRest(h, u, t, i)
    ensures var g, s := Run(h, [Put(u, t)] + Alone(u, 8)), h.slots[i];
            && g.users == h.users && g.ptrs == h.ptrs - {t} && g.named == h.named && g.claimed == h.claimed
            && s.ref > 0 && s.key in g.disk && i < |g.slots|
            && g.slots[i].ref == s.ref - 1 && g.slots == h.slots[i := g.slots[i]]
            && (g.disk[s.key].kind == 0 <==> s.valid && s.dino.nlink == 0 && s.ref == 1)
            && (g.disk[s.key].kind == 0 ==> g.disk[s.key] == Dinode(0, 0, 0, FsFree.NoAddrs()) && !g.slots[i].valid)
            && (g.disk[s.key].kind != 0 ==> g.disk == h.disk && g.slots[i] == s.(ref := s.ref - 1))
            && g.disk == h.disk[s.key := g.disk[s.key]]
  {
    var s := h.slots[i];
    AtRestFacts(h, u, t, i);
    var d, e := h.disk[s.key], Dinode(0, 0, 0, FsFree.NoAddrs());
    PutStarts(h, u, t, i, 8);
    MidRun(h, u, t, i, s, d);
    PutResult(h, u, t, i, s.(dino := e, valid := false), e, true);
    PutResult(h, u, t, i, s, d, false);
    assert h.disk[s.key := d] == h.disk;
  }
}
