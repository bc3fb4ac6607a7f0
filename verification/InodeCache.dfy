/**
 * The inode cache of fs.c as atomic steps: iget, idup, ilock, iunlock, iput and ialloc, run by any number of users.
 * A user is one process's dealings with one inode, so a process that locks two inodes is two users.
 */
module InodeCache {
  import opened Outcomes
  import opened FsLayout
  import FsFree

  datatype Key = Key(dev: nat, inum: nat)

  /** A cache entry; its sleep lock is taken by at most one user at a time. */
  datatype Slot = Slot(key: Key, ref: nat, valid: bool, dino: Dinode, lock: Option<nat>)

  /**
   * A counted pointer to an entry, and the user that is giving it back,
   * if one is. freed: that user's iput freed the inode.
   */
  datatype Ptr = Ptr(slot: nat, putter: Option<nat>, freed: bool)

  /** Where a user is; t is the pointer it uses. */
  datatype Pc =
    | Away
    | Got(key: Key)                                                     // ialloc, before its iget
    | WantLock(t: nat) | Filling(t: nat) | Holding(t: nat, dirty: bool) // ilock, and after it
    | PutWant(t: nat) | PutTest(t: nat) | PutCount(t: nat)              // iput, in program order
    | Truncating(t: nat) | Clearing(t: nat) | Invalidating(t: nat)
    | PutRelease(t: nat) | PutDrop(t: nat)
    | NoType                                                            // the panic of ilock
    | NoInodes                                                          // the panic of iget: every entry is in use

  /**
   * The cache, the pointers, the users, the inodes on disk, the inodes
   * named by directories, and ialloc's before their iget.
   */
  datatype Cache = Cache(
    slots: seq<Slot>,
    ptrs: map<nat, Ptr>,
    users: map<nat, Pc>,
    disk: map<Key, Dinode>,
    named: set<Key>,
    claimed: map<Key, nat>)

  function Token(pc: Pc): Option<nat> {
    match pc
    case Away | Got(_) | NoType | NoInodes => None
    case _ => Some(pc.t)
  }

  predicate Putting(pc: Pc) {
    !pc.Away? && !pc.Got? && !pc.NoType? && !pc.NoInodes? && !pc.WantLock? && !pc.Filling? && !pc.Holding?
  }

  predicate HasLock(pc: Pc) {
    Token(pc).Some? && !pc.WantLock? && !pc.PutWant? && !pc.PutDrop?
  }

  /** iput has freed the inode, or may have. */
  predicate PastFreeing(pc: Pc) {
    pc.Invalidating? || pc.PutRelease? || pc.PutDrop?
  }

  predicate Live(s: Slot, key: Key) {
    s.ref > 0 && s.key == key
  }

  // ----- iget's table

  /** The entry iget settles on: a live one for the key, or the first unused one. */
  predicate IsChoice(slots: seq<Slot>, key: Key, r: Option<nat>) {
    match r
    case Some(i) =>
      && i < |slots|
      && if slots[i].ref > 0 then slots[i].key == key else forall j :: 0 <= j < |slots| ==>
         !Live(slots[j], key) && (j < i ==> slots[j].ref > 0)
    case None => forall j :: 0 <= j < |slots| ==> slots[j].ref > 0 && slots[j].key != key
  }

  /** What iget's search finds. */
  function Choose(slots: seq<Slot>, key: Key): (r: Option<nat>)
    ensures IsChoice(slots, key, r)
  {
    var live := First(slots, 0, (s: Slot) => Live(s, key));
    if live.Some? then live else First(slots, 0, (s: Slot) => s.ref == 0)
  }

  function First(slots: seq<Slot>, at: nat, p: Slot -> bool): (r: Option<nat>)
    requires at <= |slots|
    ensures r.Some? ==> at <= r.value < |slots| && p(slots[r.value]) && forall j :: at <= j < r.value ==> !p(slots[j])
    ensures r.None? ==> forall j :: at <= j < |slots| ==> !p(slots[j])
    decreases |slots| - at
  {
    if at == |slots| then None else if p(slots[at]) then Some(at) else First(slots, at + 1, p)
  }

  function Gotten(s: Slot, key: Key): Slot {
    if s.ref > 0 then s.(ref := s.ref + 1) else s.(key := key, ref := 1, valid := false)
  }

  class Icache {
    const inode: array<Slot>

    constructor (n: nat, blank: Slot)
      requires blank.ref == 0
      ensures fresh(inode) && inode.Length == n && forall i :: 0 <= i < n ==> inode[i] == blank
    {
      inode := new Slot[n](_ => blank);
    }

    /** The locked part of iget: None is its panic. */
    method Iget(key: Key) returns (r: Option<nat>)
      modifies inode
      ensures r == Choose(old(inode[..]), key)
      ensures inode[..] == if r.None? then old(inode[..])
        else old(inode[..])[r.value := Gotten(old(inode[..])[r.value], key)]
    {
      var empty: Option<nat> := None;
      var i := 0;
      while i < inode.Length
        invariant 0 <= i <= inode.Length
        invariant forall j :: 0 <= j < i ==> !Live(inode[j], key)
        invariant match empty
                  case Some(e) => e < i && inode[e].ref == 0 && forall j :: 0 <= j < e ==> inode[j].ref > 0
                  case None => forall j :: 0 <= j < i ==> inode[j].ref > 0
        invariant inode[..] == old(inode[..])
      {
        if inode[i].ref > 0 && inode[i].key == key {
          inode[i] := inode[i].(ref := inode[i].ref + 1);
          return Some(i);
        }
        if empty.None? && inode[i].ref == 0 {
          empty := Some(i);
        }
        i := i + 1;
      }
      if empty.Some? {
        inode[empty.value] := inode[empty.value].(key := key, ref := 1, valid := false);
      }
      return empty;
    }

    method Idup(i: nat)
      requires i < inode.Length && inode[i].ref > 0
      modifies inode
      ensures inode[..] == old(inode[..])[i := Gotten(old(inode[i]), old(inode[i].key))]
    {
      inode[i] := inode[i].(ref := inode[i].ref + 1);
    }
  }

  /** The scan of ialloc over the inodes 1 .. ninodes - 1 of a device: it claims the first free one, or panics. */
  method Ialloc(disk: array<Dinode>, kind: nat) returns (r: Outcome<nat>)
    modifies disk
    ensures match r
            case Done(inum) =>
              && 1 <= inum < disk.Length && old(disk[inum].kind) == 0
              && (forall j :: 1 <= j < inum ==> old(disk[j].kind) != 0)
              && disk[..] == old(disk[..])[inum := Dinode(kind, 0, 0, FsFree.NoAddrs())]
            case Panic => disk[..] == old(disk[..]) && forall j :: 1 <= j < disk.Length ==> disk[j].kind != 0
  {
    var inum := 1;
    while inum < disk.Length
      invariant 1 <= inum && (disk.Length >= 1 ==> inum <= disk.Length)
      invariant forall j :: 1 <= j < inum && j < disk.Length ==> disk[j].kind != 0
      invariant disk[..] == old(disk[..])
    {
      if disk[inum].kind == 0 {
        disk[inum] := Dinode(kind, 0, 0, FsFree.NoAddrs());
        return Done(inum);
      }
      inum := inum + 1;
    }
    return Panic;
  }

  // ----- Steps

  /** What a user may do next; Go is the next step of the routine it is in. */
  datatype Move =
    | Iget(u: nat, key: Key, t: nat)
    | Dup(src: nat, t: nat)
    | Lock(u: nat, t: nat)
    | Edit(u: nat, dino: Dinode)
    | Flush(u: nat)
    | Unlock(u: nat)
    | Put(u: nat, t: nat)
    | Alloc(u: nat, key: Key, kind: nat)
    | AllocIget(u: nat, t: nat)
    | Name(named: set<Key>)
    | Go(u: nat)

  predicate Sane(h: Cache) {
    && (forall t :: t in h.ptrs ==> h.ptrs[t].slot < |h.slots|)
    && (forall u :: u in h.users && Token(h.users[u]).Some? ==> h.users[u].t in h.ptrs)
    && (forall i :: 0 <= i < |h.slots| && h.slots[i].ref > 0 ==> h.slots[i].key in h.disk)
  }

  /** The entry user u works on. */
  function At(h: Cache, u: nat): (i: nat)
    requires Sane(h) && u in h.users && Token(h.users[u]).Some?
    ensures i < |h.slots|
  {
    h.ptrs[h.users[u].t].slot
  }

  /** Directories name only inodes that have links, on disk and in the cache. */
  predicate Linked(h: Cache, key: Key) {
    && key in h.disk && h.disk[key].kind != 0 && h.disk[key].nlink > 0
    && forall i :: 0 <= i < |h.slots| && Live(h.slots[i], key) && h.slots[i].valid ==> h.slots[i].dino.nlink > 0
  }

  /** Which moves the callers in the kernel make. */
  predicate Allowed(h: Cache, m: Move)
    requires Sane(h)
  {
    match m
    case Iget(u, key, t) => u in h.users && h.users[u].Away? && key in h.named && key in h.disk && t !in h.ptrs
    case Dup(src, t) => src in h.ptrs && h.ptrs[src].putter.None? && t !in h.ptrs
    case Lock(u, t) => u in h.users && h.users[u].Away? && t in h.ptrs && h.ptrs[t].putter.None?
    case Edit(u, d) =>
      && u in h.users && h.users[u].Holding? && d.kind != 0
      && (h.slots[At(h, u)].key in h.named ==> d.nlink > 0)
    case Flush(u) => u in h.users && h.users[u].Holding? && h.slots[At(h, u)].ref > 0
    case Unlock(u) => u in h.users && h.users[u].Holding? && !h.users[u].dirty
    case Put(u, t) =>
      && u in h.users && h.users[u].Away? && t in h.ptrs && h.ptrs[t].putter.None?
      && forall v :: v in h.users ==> Token(h.users[v]) != Some(t)
    case Alloc(u, key, kind) => u in h.users && h.users[u].Away? && key in h.disk && h.disk[key].kind == 0 && kind != 0
    case AllocIget(u, t) => u in h.users && h.users[u].Got? && h.users[u].key in h.disk && t !in h.ptrs
    case Name(named) => forall key :: key in named ==> Linked(h, key)
    case Go(u) => u in h.users && Token(h.users[u]).Some? && !h.users[u].Holding? && h.slots[At(h, u)].ref > 0
  }

  /** iget by user u, who then has the new pointer t. */
  function WithPtr(h: Cache, u: nat, key: Key, t: nat): Cache {
    match Choose(h.slots, key)
    case None => h.(users := h.users[u := NoInodes])
    case Some(i) =>
      h.(slots := h.slots[i := Gotten(h.slots[i], key)], ptrs := h.ptrs[t := Ptr(i, None, false)],
        users := h.users[u := Away])
  }

  function Step(h: Cache, m: Move): Cache
    requires Sane(h) && Allowed(h, m)
  {
    match m
    case Iget(u, key, t) => WithPtr(h, u, key, t)
    case Dup(src, t) =>
      var i := h.ptrs[src].slot;
      h.(slots := h.slots[i := h.slots[i].(ref := h.slots[i].ref + 1)], ptrs := h.ptrs[t := Ptr(i, None, false)])
    case Lock(u, t) => h.(users := h.users[u := WantLock(t)])
    case Edit(u, d) => InSlot(h, u, h.slots[At(h, u)].(dino := d), Holding(h.users[u].t, true))
    case Flush(u) => OnDisk(h, u, h.slots[At(h, u)].dino, Holding(h.users[u].t, false))
    case Unlock(u) => InSlot(h, u, h.slots[At(h, u)].(lock := None), Away)
    case Put(u, t) => h.(users := h.users[u := PutWant(t)], ptrs := h.ptrs[t := h.ptrs[t].(putter := Some(u))])
    case Alloc(u, key, kind) =>
      h.(users := h.users[u := Got(key)], disk := h.disk[key := Dinode(kind, 0, 0, FsFree.NoAddrs())],
        claimed := h.claimed[key := u])
    case AllocIget(u, t) =>
      var key := h.users[u].key;
      var g := WithPtr(h, u, key, t);
      if g.users[u].NoInodes? then g else g.(claimed := g.claimed - {key})
    case Name(named) => h.(named := named)
    case Go(u) => Advance(h, u)
  }

  /** User u changes its entry and moves on. */
  function InSlot(h: Cache, u: nat, s: Slot, pc: Pc): Cache
    requires Sane(h) && u in h.users && Token(h.users[u]).Some?
  {
    h.(slots := h.slots[At(h, u) := s], users := h.users[u := pc])
  }

  /** User u gives its entry a new copy of the inode, and writes that to disk with iupdate. */
  function OnDisk(h: Cache, u: nat, d: Dinode, pc: Pc): Cache
    requires Sane(h) && u in h.users && Token(h.users[u]).Some?
  {
    var s := h.slots[At(h, u)];
    InSlot(h, u, s.(dino := d), pc).(disk := h.disk[s.key := d])
  }

  /** The next step of ilock or iput. */
  function Advance(h: Cache, u: nat): Cache
    requires Sane(h) && Allowed(h, Go(u))
  {
    var pc := h.users[u];
    var t := pc.t;
    var s := h.slots[At(h, u)];
    match pc
    case WantLock(_) => if s.lock.None? then InSlot(h, u, s.(lock := Some(u)), Filling(t)) else h
    case Filling(_) =>
      if s.valid then InSlot(h, u, s, Holding(t, false))
      else
        var d := h.disk[s.key];
        InSlot(h, u, s.(dino := d, valid := true), if d.kind == 0 then NoType else Holding(t, false))
    case PutWant(_) => if s.lock.None? then InSlot(h, u, s.(lock := Some(u)), PutTest(t)) else h
    case PutTest(_) => InSlot(h, u, s, if s.valid && s.dino.nlink == 0 then PutCount(t) else PutRelease(t))
    case PutCount(_) => InSlot(h, u, s, if s.ref == 1 then Truncating(t) else PutRelease(t))
    case Truncating(_) => OnDisk(h, u, s.dino.(addrs := FsFree.NoAddrs(), size := 0), Clearing(t))
    case Clearing(_) =>
      OnDisk(h, u, s.dino.(kind := 0), Invalidating(t)).(ptrs := h.ptrs[t := h.ptrs[t].(freed := true)])
    case Invalidating(_) => InSlot(h, u, s.(valid := false), PutRelease(t))
    case PutRelease(_) => InSlot(h, u, s.(lock := None), PutDrop(t))
    case PutDrop(_) => InSlot(h, u, s.(ref := s.ref - 1), Away).(ptrs := h.ptrs - {t})
    case _ => h
  }

  // ----- What always holds

  ghost function Tokens(ptrs: map<nat, Ptr>, i: nat): set<nat> {
    set t | t in ptrs && ptrs[t].slot == i
  }

  /** The inode is free on disk, or ialloc has just claimed it and has no pointer yet. */
  predicate Unclaimed(h: Cache, key: Key) {
    key in h.claimed || (key in h.disk && h.disk[key].kind == 0)
  }

  /** The cached copy may differ from the disk: its user has edited it, or has freed the inode and not yet said so. */
  predicate Changing(h: Cache, s: Slot) {
    s.lock.Some? && s.lock.value in h.users
      && (h.users[s.lock.value].Invalidating? || (h.users[s.lock.value].Holding? && h.users[s.lock.value].dirty))
  }

  ghost predicate SlotOk(h: Cache, i: nat, s: Slot) {
    && s.ref == |Tokens(h.ptrs, i)|
    && (s.lock.Some? ==>
          && s.lock.value in h.users && HasLock(h.users[s.lock.value])
          && var t := h.users[s.lock.value].t; t in h.ptrs && h.ptrs[t].slot == i)
    && (s.ref > 0 ==> s.key in h.disk)
    && (s.ref > 0 && s.valid && !Changing(h, s) ==> s.dino == h.disk[s.key] && s.dino.kind != 0)
  }

  ghost predicate TokenOk(h: Cache, t: nat, p: Ptr) {
    && p.slot < |h.slots| && h.slots[p.slot].ref > 0
    && (p.putter.Some? ==>
       p.putter.value in h.users && Putting(h.users[p.putter.value]) && Token(h.users[p.putter.value]) == Some(t))
    && (p.freed ==> p.putter.Some? && PastFreeing(h.users[p.putter.value]))
    && (Unclaimed(h, h.slots[p.slot].key) ==>
          p.freed && h.slots[p.slot].ref == 1 && (h.slots[p.slot].valid ==> h.users[p.putter.value].Invalidating?))
  }

  ghost predicate UserOk(h: Cache, u: nat, pc: Pc) {
    && !pc.NoType?
    && (pc.Got? ==> pc.key in h.claimed && h.claimed[pc.key] == u)
    && (Token(pc).Some? ==>
          && pc.t in h.ptrs && h.ptrs[pc.t].slot < |h.slots|
          && h.ptrs[pc.t].putter == (if Putting(pc) then Some(u) else None)
          && WorkOk(h.slots[h.ptrs[pc.t].slot], u, pc))
  }

  /** What a user knows of the entry it works on. */
  predicate WorkOk(s: Slot, u: nat, pc: Pc) {
    && (HasLock(pc) <==> s.lock == Some(u))
    && (pc.Holding? ==> s.valid && s.dino.kind != 0)
    && (pc.PutCount? || pc.Truncating? || pc.Clearing? ==> s.valid && s.dino.nlink == 0)
    && (pc.Truncating? || pc.Clearing? ==> s.ref == 1)
  }

  predicate ClaimedOk(h: Cache, key: Key) {
    key in h.disk && h.disk[key].kind != 0 && h.disk[key].nlink == 0
  }

  ghost predicate Unique(h: Cache) {
    forall i, j {:trigger Live(h.slots[j], h.slots[i].key)} :: 0 <= i < j < |h.slots| && h.slots[i].ref > 0 ==>
      !Live(h.slots[j], h.slots[i].key)
  }

  ghost predicate Ok(h: Cache) {
    && Sane(h) && Unique(h)
    && (forall i {:trigger SlotOk(h, i, h.slots[i])} :: 0 <= i < |h.slots| ==> SlotOk(h, i, h.slots[i]))
    && (forall t {:trigger TokenOk(h, t, h.ptrs[t])} :: t in h.ptrs ==> TokenOk(h, t, h.ptrs[t]))
    && (forall u {:trigger UserOk(h, u, h.users[u])} :: u in h.users ==> UserOk(h, u, h.users[u]))
    && (forall key {:trigger ClaimedOk(h, key)} :: key in h.claimed ==> ClaimedOk(h, key))
    && (forall key {:trigger Linked(h, key)} :: key in h.named ==> Linked(h, key))
  }
}
