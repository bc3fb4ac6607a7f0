/**
 * The user-level K&R allocator: one circular, address-ordered list of free blocks with a header each.
 * Addresses and sizes count Header units of 8 bytes; the static header base lies below the heap.
 */
module Allocator {
  import opened Outcomes

  const BASE: nat := 1
  const HEADER: nat := 8
  const MINGROW: nat := 4096
  const UINT_LIMIT: nat := 0x1_0000_0000

  /** The units a request takes, with its header: rounded up in 32-bit arithmetic, which may wrap. */
  function Units(nbytes: nat): nat {
    (nbytes + HEADER - 1) % UINT_LIMIT / HEADER + 1
  }

  /** A block's payload holds the request exactly when the rounding up does not wrap around. */
  lemma UnitsHoldRequest(nbytes: nat)
    requires nbytes < UINT_LIMIT
    ensures (Units(nbytes) - 1) * HEADER >= nbytes <==> nbytes <= UINT_LIMIT - HEADER
    ensures (Units(nbytes) - 1) * HEADER < nbytes + HEADER
  {
  }

  /** The int that morecore hands to sbrk: nu * sizeof(Header) cut to 32 bits and read as signed. */
  function Ask(n: nat): int {
    var bytes := (if n < MINGROW then MINGROW else n) * HEADER % UINT_LIMIT;
    if bytes < UINT_LIMIT / 2 then bytes else bytes - UINT_LIMIT
  }

  /** sbrk is asked to grow, and for all of the units, exactly below 2 Gbytes (or when Units wraps to 1). */
  lemma AskIsPositive(nbytes: nat)
    requires nbytes < UINT_LIMIT
    ensures Ask(Units(nbytes)) > 0 <==> nbytes <= UINT_LIMIT / 2 - 2 * HEADER || nbytes > UINT_LIMIT - HEADER
  {
    var n := Units(nbytes);
    assert n <= 0x2000_0000;
    assert n == 0x2000_0000 ==> n * HEADER % UINT_LIMIT == 0;
    assert n < 0x2000_0000 ==> n * HEADER % UINT_LIMIT == n * HEADER;
  }

  lemma AskIsExact(nbytes: nat)
    requires nbytes < UINT_LIMIT && Ask(Units(nbytes)) > 0
    ensures var n := Units(nbytes); Ask(n) == (if n < MINGROW then MINGROW else n) * HEADER
  {
    var n := Units(nbytes);
    assert n <= 0x2000_0000;
    assert Ask(0x2000_0000) == 0;
  }

  datatype Block = Block(addr: nat, units: nat) {
    function End(): nat { addr + units }
    predicate Has(u: nat) { addr <= u < addr + units }
  }

  /** Non-empty blocks above floor in address order, no two of which touch: everything is coalesced. */
  ghost predicate Ordered(floor: nat, b: seq<Block>)
    decreases b
  {
    b != [] ==> floor < b[0].addr && b[0].units >= 1 && Ordered(b[0].End(), b[1..])
  }

  ghost predicate Covers(b: seq<Block>, u: nat) {
    b != [] && (b[0].Has(u) || Covers(b[1..], u))
  }

  lemma {:induction false} CoveredAbove(floor: nat, b: seq<Block>, u: nat)
    requires Ordered(floor, b) && Covers(b, u)
    ensures u > floor
    decreases b
  {
    if !b[0].Has(u) { CoveredAbove(b[0].End(), b[1..], u); }
  }

  /** A free list is determined by the units that it covers: the order of the calls leaves no trace in it. */
  lemma {:induction false} FreeListIsCanonical(f: nat, a: seq<Block>, g: nat, b: seq<Block>)
    requires Ordered(f, a) && Ordered(g, b)
    requires forall u: nat :: Covers(a, u) <==> Covers(b, u)
    ensures a == b
    decreases a
  {
    if a == [] {
      if b != [] { assert Covers(b, b[0].addr); }
    } else {
      assert Covers(a, a[0].addr);
      SameFirst(f, a, g, b);
      forall u: nat ensures Covers(a[1..], u) <==> Covers(b[1..], u) {
        if Covers(a[1..], u) { CoveredAbove(a[0].End(), a[1..], u); assert Covers(a, u); }
        if Covers(b[1..], u) { CoveredAbove(b[0].End(), b[1..], u); assert Covers(b, u); }
      }
      FreeListIsCanonical(a[0].End(), a[1..], b[0].End(), b[1..]);
    }
  }

  /** So after any run the free list depends on the live blocks and the arena only, not on the order of the calls. */
  lemma HeapIsCanonical(a: seq<Block>, b: seq<Block>, live: map<nat, nat>, arena: set<nat>)
    requires Ordered(BASE, a) && Conserved(a, live, arena)
    requires Ordered(BASE, b) && Conserved(b, live, arena)
    ensures a == b
  {
    forall u: nat ensures Covers(a, u) <==> Covers(b, u) {
      assert u in arena <==> Covers(a, u) || InLive(live, u);
      assert u in arena <==> Covers(b, u) || InLive(live, u);
    }
    FreeListIsCanonical(BASE, a, BASE, b);
  }

  lemma SameFirst(f: nat, a: seq<Block>, g: nat, b: seq<Block>)
    requires Ordered(f, a) && Ordered(g, b) && a != [] && b != []
    requires forall u: nat :: Covers(a, u) <==> Covers(b, u)
    ensures a[0] == b[0]
  {
    FirstReach(f, a, g, b);
    FirstReach(g, b, f, a);
  }

  lemma FirstReach(f: nat, a: seq<Block>, g: nat, b: seq<Block>)
    requires Ordered(f, a) && Ordered(g, b) && a != [] && b != []
    requires forall u: nat :: Covers(a, u) <==> Covers(b, u)
    ensures a[0].addr >= b[0].addr
    ensures a[0].addr == b[0].addr ==> a[0].End() <= b[0].End()
  {
    assert Covers(a, a[0].addr);
    if a[0].addr < b[0].addr {
      CoveredAbove(b[0].End(), b[1..], a[0].addr);
    } else if a[0].addr == b[0].addr && b[0].End() < a[0].End() {
      assert Covers(a, b[0].End());
      CoveredAbove(b[0].End(), b[1..], b[0].End());
    }
  }

  // ----- What free does to the list

  /** Where a freed block goes: in address order, joined with the neighbours that it touches. */
  function Freed(b: seq<Block>, x: Block): seq<Block> {
    if b == [] || x.End() < b[0].addr then [x] + b
    else if x.End() == b[0].addr then [Block(x.addr, x.units + b[0].units)] + b[1..]
    else if b[0].End() == x.addr then Freed(b[1..], Block(b[0].addr, b[0].units + x.units))
    else [b[0]] + Freed(b[1..], x)
  }

  lemma {:induction false} FreedKeeps(floor: nat, b: seq<Block>, x: Block)
    requires Ordered(floor, b) && floor < x.addr && x.units >= 1
    requires forall u: nat :: x.Has(u) ==> !Covers(b, u)
    ensures Ordered(floor, Freed(b, x))
    ensures forall u: nat :: Covers(Freed(b, x), u) <==> Covers(b, u) || x.Has(u)
    decreases b
  {
    if b == [] || x.End() <= b[0].addr {
      var c := Freed(b, x);
      assert b != [] && x.End() == b[0].addr ==> c[1..] == b[1..];
      assert b == [] || x.End() < b[0].addr ==> c[1..] == b;
    } else {
      assert x.Has(x.addr) && Covers(b, b[0].addr);
      assert x.addr >= b[0].End();
      forall u: nat | Covers(b[1..], u) ensures u > b[0].End() {
        CoveredAbove(b[0].End(), b[1..], u);
      }
      if b[0].End() == x.addr {
        var y := Block(b[0].addr, b[0].units + x.units);
        OrderedBelow(b[0].End(), floor, b[1..]);
        forall u: nat | y.Has(u) ensures !Covers(b[1..], u) {
          if Covers(b[1..], u) { assert x.Has(u) && Covers(b, u); }
        }
        FreedKeeps(floor, b[1..], y);
      } else {
        FreedKeeps(b[0].End(), b[1..], x);
        assert Freed(b, x)[1..] == Freed(b[1..], x);
      }
    }
  }

  lemma OrderedBelow(floor: nat, below: nat, b: seq<Block>)
    requires Ordered(floor, b) && below <= floor
    ensures Ordered(below, b)
  {
  }

  // ----- What malloc does to the list

  /** The list after n units are taken from the end of b[k]; a block that fits exactly is unlinked. */
  function Cut(b: seq<Block>, k: nat, n: nat): seq<Block>
    requires k < |b| && n <= b[k].units
  {
    if k > 0 then [b[0]] + Cut(b[1..], k - 1, n)
    else if b[0].units == n then b[1..]
    else [Block(b[0].addr, b[0].units - n)] + b[1..]
  }

  lemma {:induction false} CutKeeps(floor: nat, b: seq<Block>, k: nat, n: nat)
    requires Ordered(floor, b) && k < |b| && 1 <= n <= b[k].units
    ensures Ordered(floor, Cut(b, k, n))
    ensures floor < b[k].End() - n
    ensures forall u: nat :: Covers(Cut(b, k, n), u) <==> Covers(b, u) && !(b[k].End() - n <= u < b[k].End())
    decreases b
  {
    forall u: nat | Covers(b[1..], u) ensures u > b[0].End() {
      CoveredAbove(b[0].End(), b[1..], u);
    }
    if k > 0 {
      CutKeeps(b[0].End(), b[1..], k - 1, n);
      assert Cut(b, k, n)[1..] == Cut(b[1..], k - 1, n);
    } else if b[0].units == n {
      OrderedBelow(b[0].End(), floor, b[1..]);
    } else {
      OrderedBelow(b[0].End(), b[0].End() - n, b[1..]);
      assert Cut(b, 0, n)[1..] == b[1..];
    }
  }

  // ----- The list as headers

  function First(b: seq<Block>, end: nat): nat {
    if b == [] then end else b[0].addr
  }

  /** Following ptr from the first block leads through all of b and then to end. */
  ghost predicate Chain(ptr: map<nat, nat>, size: map<nat, nat>, b: seq<Block>, end: nat) {
    b != [] ==>
      && b[0].addr in ptr && ptr[b[0].addr] == First(b[1..], end)
      && b[0].addr in size && size[b[0].addr] == b[0].units
      && Chain(ptr, size, b[1..], end)
  }

  lemma {:induction false} ChainFrame(floor: nat, b: seq<Block>, end: nat, ptr: map<nat, nat>, size: map<nat, nat>,
                   ptr': map<nat, nat>, size': map<nat, nat>)
    requires Ordered(floor, b) && Chain(ptr, size, b, end)
    requires forall a: nat :: a > floor && a in ptr ==> a in ptr' && ptr'[a] == ptr[a]
    requires forall a: nat :: a > floor && a in size ==> a in size' && size'[a] == size[a]
    ensures Chain(ptr', size', b, end)
    decreases b
  {
    if b != [] { ChainFrame(b[0].End(), b[1..], end, ptr, size, ptr', size'); }
  }

  lemma {:induction false} ChainAt(ptr: map<nat, nat>, size: map<nat, nat>, b: seq<Block>, end: nat, i: nat)
    requires Chain(ptr, size, b, end) && i < |b|
    ensures b[i].addr in ptr && ptr[b[i].addr] == First(b[i + 1..], end)
    ensures b[i].addr in size && size[b[i].addr] == b[i].units
  {
    if i > 0 {
      ChainAt(ptr, size, b[1..], end, i - 1);
      assert b[1..][i..] == b[i + 1..];
    }
  }

  // ----- What free writes

  /** The header pointers after free has linked x behind the block at p. */
  function FreedPtr(ptr: map<nat, nat>, size: map<nat, nat>, p: nat, x: Block): map<nat, nat>
    requires p in ptr && p in size
    requires x.End() == ptr[p] ==> ptr[p] in ptr
  {
    var next := if x.End() == ptr[p] then ptr[ptr[p]] else ptr[p];
    ptr[x.addr := next][p := if p + size[p] == x.addr then next else x.addr]
  }

  /** The header sizes after free has joined x with the block at p and the one after it. */
  function FreedSize(ptr: map<nat, nat>, size: map<nat, nat>, p: nat, x: Block): map<nat, nat>
    requires p in ptr && p in size
    requires x.End() == ptr[p] ==> ptr[p] in size
  {
    var units := if x.End() == ptr[p] then x.units + size[ptr[p]] else x.units;
    size[x.addr := units][p := if p + size[p] == x.addr then size[p] + units else size[p]]
  }

  /** x goes between the block h and the ordered blocks that follow it. */
  ghost predicate Behind(h: Block, rest: seq<Block>, x: Block) {
    && h.addr < x.addr && h.End() <= x.addr && x.units >= 1 && Ordered(h.End(), rest)
    && (rest != [] ==> x.End() <= rest[0].addr)
  }

  lemma FreedChainHere(ptr: map<nat, nat>, size: map<nat, nat>, h: Block, rest: seq<Block>, x: Block, end: nat)
    requires Chain(ptr, size, [h] + rest, end) && Behind(h, rest, x) && end < x.addr
    ensures x.End() == ptr[h.addr] ==> ptr[h.addr] in ptr && ptr[h.addr] in size
    ensures Chain(FreedPtr(ptr, size, h.addr, x), FreedSize(ptr, size, h.addr, x), Freed([h] + rest, x), end)
  {
    var b := [h] + rest;
    assert b[1..] == rest;
    var ptr', size' := FreedPtr(ptr, size, h.addr, x), FreedSize(ptr, size, h.addr, x);
    if rest != [] {
      ChainFrame(rest[0].End(), rest[1..], end, ptr, size, ptr', size');
      if x.End() < rest[0].addr {
        assert Ordered(x.addr, rest);
        ChainFrame(x.addr, rest, end, ptr, size, ptr', size');
      }
    }
  }

  /** j is the last block below x. */
  ghost predicate Slot(b: seq<Block>, j: nat, x: Block) {
    j < |b| && b[j].addr < x.addr && (j + 1 < |b| ==> x.addr < b[j + 1].addr)
  }

  ghost predicate Clear(b: seq<Block>, x: Block) {
    forall u: nat :: x.Has(u) ==> !Covers(b, u)
  }

  lemma {:induction false} AddrAbove(floor: nat, b: seq<Block>, i: nat)
    requires Ordered(floor, b) && i < |b|
    ensures b[i].addr > floor && (i > 0 ==> b[i].addr > b[0].End())
    decreases b
  {
    if i > 0 { AddrAbove(b[0].End(), b[1..], i - 1); }
  }

  /** Whatever the place of the block, the words that free writes there leave the chain of the freed list. */
  lemma {:induction false} FreedChain(ptr: map<nat, nat>, size: map<nat, nat>, h: Block, rest: seq<Block>, j: nat,
                                      p: nat, x: Block, end: nat)
    requires Chain(ptr, size, [h] + rest, end) && Ordered(h.End(), rest) && end < x.addr && x.units >= 1
    requires Slot([h] + rest, j, x) && Clear([h] + rest, x) && p == ([h] + rest)[j].addr
    ensures p in ptr && p in size && (x.End() == ptr[p] ==> ptr[p] in ptr && ptr[p] in size)
    ensures Chain(FreedPtr(ptr, size, p, x), FreedSize(ptr, size, p, x), Freed([h] + rest, x), end)
    ensures First(Freed([h] + rest, x), end) == h.addr
    ensures j < |Freed([h] + rest, x)| && Freed([h] + rest, x)[j].addr == p
    decreases j
  {
    var b := [h] + rest;
    assert b[1..] == rest;
    assert x.Has(x.addr);
    if j == 0 {
      assert !Covers(b, x.addr);
      if rest != [] { assert rest[0].Has(rest[0].addr) && Covers(b, rest[0].addr); }
      FreedChainHere(ptr, size, h, rest, x, end);
    } else {
      AddrAbove(h.End(), rest, j - 1);
      assert [rest[0]] + rest[1..] == rest;
      FreedChain(ptr, size, rest[0], rest[1..], j - 1, p, x, end);
      assert Freed(b, x)[1..] == Freed(rest, x);
    }
  }

  // ----- What malloc writes

  function CutPtr(ptr: map<nat, nat>, size: map<nat, nat>, prev: nat, p: nat, n: nat): map<nat, nat>
    requires p in ptr && p in size
  {
    if size[p] == n then ptr[prev := ptr[p]] else ptr
  }

  function CutSize(size: map<nat, nat>, p: nat, n: nat): map<nat, nat>
    requires p in size && n <= size[p]
  {
    if size[p] == n then size else size[p := size[p] - n][p + size[p] - n := n]
  }

  lemma {:induction false} CutChain(ptr: map<nat, nat>, size: map<nat, nat>, h: Block, rest: seq<Block>, k: nat,
                                    prev: nat, p: nat, n: nat, end: nat)
    requires Chain(ptr, size, [h] + rest, end) && Ordered(h.End(), rest) && k < |rest|
    requires prev == ([h] + rest)[k].addr && p == rest[k].addr && 1 <= n <= rest[k].units
    ensures p in ptr && p in size && size[p] == rest[k].units
    ensures Chain(CutPtr(ptr, size, prev, p, n), CutSize(size, p, n), [h] + Cut(rest, k, n), end)
    ensures k < |[h] + Cut(rest, k, n)| && ([h] + Cut(rest, k, n))[k].addr == prev
    decreases k
  {
    var b := [h] + rest;
    assert b[1..] == rest;
    var c := [h] + Cut(rest, k, n);
    assert c[1..] == Cut(rest, k, n);
    if k == 0 {
      var ptr', size' := CutPtr(ptr, size, prev, p, n), CutSize(size, p, n);
      assert Chain(ptr, size, rest, end);
      ChainFrame(rest[0].End(), rest[1..], end, ptr, size, ptr', size');
      assert Cut(rest, k, n) != rest[1..] ==> Cut(rest, k, n)[1..] == rest[1..];
    } else {
      AddrAbove(h.End(), rest, k);
      AddrAbove(h.End(), rest, k - 1);
      assert [rest[0]] + rest[1..] == rest;
      CutChain(ptr, size, rest[0], rest[1..], k - 1, prev, p, n, end);
      assert Cut(rest, k, n) == [rest[0]] + Cut(rest[1..], k - 1, n);
    }
  }

  // ----- The circle

  ghost function Circle(rest: seq<Block>): seq<Block> {
    [Block(BASE, 0)] + rest
  }

  lemma CircleRises(rest: seq<Block>, i: nat, k: nat)
    requires Ordered(BASE, rest) && i < k <= |rest|
    ensures Circle(rest)[i].addr < Circle(rest)[k].addr
  {
    AddrAbove(BASE, rest, k - 1);
    if i > 0 { Rises(BASE, rest, i - 1, k - 1); }
  }

  lemma {:induction false} Rises(floor: nat, b: seq<Block>, i: nat, k: nat)
    requires Ordered(floor, b) && i < k < |b|
    ensures b[i].addr < b[k].addr
    decreases b
  {
    if i == 0 { AddrAbove(floor, b, k); } else { Rises(b[0].End(), b[1..], i - 1, k - 1); }
  }

  lemma {:induction false} SlotExists(floor: nat, h: Block, rest: seq<Block>, x: Block) returns (j: nat)
    requires h.addr < x.addr && Ordered(floor, rest) && !Covers(rest, x.addr)
    ensures Slot([h] + rest, j, x)
    decreases rest
  {
    if rest == [] || x.addr < rest[0].addr {
      j := 0;
    } else {
      j := SlotExists(rest[0].End(), rest[0], rest[1..], x);
      assert [rest[0]] + rest[1..] == rest;
      j := j + 1;
    }
  }

  /** The two tests of free's search loop stop it exactly at the last block below bp. */
  lemma SearchStops(rest: seq<Block>, i: nat, j: nat, x: Block)
    requires Ordered(BASE, rest) && i <= |rest| && Slot(Circle(rest), j, x)
    ensures var p, next := Circle(rest)[i].addr, First(Circle(rest)[i + 1..], BASE);
            (x.addr > p && x.addr < next) || (p >= next && (x.addr > p || x.addr < next)) <==> i == j
  {
    var b := Circle(rest);
    if i < j { CircleRises(rest, i, j); }
    if j < i { CircleRises(rest, j, i); }
    if j + 1 < i { CircleRises(rest, j + 1, i); }
    if i + 1 < j { CircleRises(rest, i + 1, j); }
    if i < |rest| { CircleRises(rest, i, i + 1); }
    if i > 0 { CircleRises(rest, 0, i); }
    if j > 0 { CircleRises(rest, 0, j); }
  }

  // ----- The whole heap

  ghost predicate InLive(live: map<nat, nat>, u: nat) {
    exists a :: a in live && Block(a, live[a]).Has(u)
  }

  /** Live blocks have their size in their header and do not overlap. */
  ghost predicate LiveOk(size: map<nat, nat>, live: map<nat, nat>) {
    && (forall a :: a in live ==> a > BASE && live[a] >= 1 && a in size && size[a] == live[a])
    && (forall a, c :: a in live && c in live && a < c ==> a + live[a] <= c)
  }

  /** Every unit obtained from sbrk is in one block, free or live but not both, and there are no other blocks. */
  ghost predicate Conserved(rest: seq<Block>, live: map<nat, nat>, arena: set<nat>) {
    forall u: nat ::
      && (u in arena <==> Covers(rest, u) || InLive(live, u))
      && !(Covers(rest, u) && InLive(live, u))
  }

  ghost predicate OnCircle(rest: seq<Block>, p: nat) {
    exists i :: 0 <= i <= |rest| && Circle(rest)[i].addr == p
  }

  /** Some free block is large enough for n units. */
  ghost predicate Fitting(rest: seq<Block>, n: nat) {
    exists i :: 0 <= i < |rest| && rest[i].units >= n
  }

  lemma {:induction false} FreedFits(b: seq<Block>, x: Block)
    ensures Fitting(Freed(b, x), x.units)
    decreases b
  {
    var c := Freed(b, x);
    if b == [] || x.End() <= b[0].addr {
      assert c[0].units >= x.units;
    } else if b[0].End() == x.addr {
      var y := Block(b[0].addr, b[0].units + x.units);
      FreedFits(b[1..], y);
      assert c == Freed(b[1..], y);
    } else {
      FreedFits(b[1..], x);
      var d := Freed(b[1..], x);
      assert c == [b[0]] + d;
      var i :| 0 <= i < |d| && d[i].units >= x.units;
      assert c[i + 1] == d[i];
    }
  }

  lemma AddedLive(live: map<nat, nat>, x: Block, u: nat)
    requires x.addr !in live
    ensures InLive(live[x.addr := x.units], u) <==> InLive(live, u) || x.Has(u)
  {
    var live' := live[x.addr := x.units];
    if InLive(live, u) {
      var a :| a in live && Block(a, live[a]).Has(u);
      assert a in live' && live'[a] == live[a];
    }
    assert x.addr in live' && Block(x.addr, live'[x.addr]) == x;
  }

  lemma LiveFreed(rest: seq<Block>, rest': seq<Block>, size: map<nat, nat>, size': map<nat, nat>, live: map<nat, nat>,
                  x: Block, arena: set<nat>)
    requires LiveOk(size, live) && Conserved(rest, live, arena)
    requires x.addr in live && live[x.addr] == x.units
    requires forall u: nat :: Covers(rest', u) <==> Covers(rest, u) || x.Has(u)
    requires forall a :: a in live && a != x.addr ==> a in size' && size'[a] == size[a]
    ensures LiveOk(size', live - {x.addr}) && Conserved(rest', live - {x.addr}, arena)
  {
    var live' := live - {x.addr};
    assert live'[x.addr := x.units] == live;
    forall u: nat
      ensures InLive(live, u) <==> InLive(live', u) || x.Has(u)
      ensures !(InLive(live', u) && x.Has(u))
    {
      AddedLive(live', x, u);
      if InLive(live', u) {
        var a :| a in live' && Block(a, live'[a]).Has(u);
        assert a < x.addr || x.addr < a;
      }
    }
  }

  lemma NotLive(rest: seq<Block>, size: map<nat, nat>, live: map<nat, nat>, x: Block, arena: set<nat>, a: nat)
    requires LiveOk(size, live) && Conserved(rest, live, arena) && x.units >= 1
    requires forall u: nat :: x.Has(u) ==> Covers(rest, u)
    requires a in live
    ensures a != x.addr && (a < x.addr ==> a + live[a] <= x.addr) && (x.addr < a ==> x.End() <= a)
  {
    assert Block(a, live[a]).Has(a) && InLive(live, a);
    if Block(a, live[a]).Has(x.addr) { assert InLive(live, x.addr); }
  }

  lemma LiveTaken(rest: seq<Block>, rest': seq<Block>, size: map<nat, nat>, size': map<nat, nat>, live: map<nat, nat>,
                  x: Block, arena: set<nat>)
    requires LiveOk(size, live) && Conserved(rest, live, arena) && x.addr > BASE && x.units >= 1
    requires forall u: nat :: x.Has(u) ==> Covers(rest, u)
    requires forall u: nat :: Covers(rest', u) <==> Covers(rest, u) && !x.Has(u)
    requires forall a :: a in live ==> a in size' && size'[a] == size[a]
    requires x.addr in size' && size'[x.addr] == x.units
    ensures x.addr !in live && LiveOk(size', live[x.addr := x.units])
    ensures Conserved(rest', live[x.addr := x.units], arena)
  {
    forall a | a in live
      ensures a != x.addr && (a < x.addr ==> a + live[a] <= x.addr) && (x.addr < a ==> x.End() <= a)
    {
      NotLive(rest, size, live, x, arena, a);
    }
    forall u: nat ensures InLive(live[x.addr := x.units], u) <==> InLive(live, u) || x.Has(u) {
      AddedLive(live, x, u);
    }
  }

  lemma LiveGrown(rest: seq<Block>, size: map<nat, nat>, live: map<nat, nat>, x: Block, arena: set<nat>, brk: nat,
                  arena': set<nat>)
    requires LiveOk(size, live) && Conserved(rest, live, arena) && x.units >= 1
    requires BASE < brk <= x.addr && forall u :: u in arena ==> u < brk
    requires forall u: nat :: u in arena' <==> u in arena || x.Has(u)
    ensures x.addr !in live && LiveOk(size[x.addr := x.units], live[x.addr := x.units])
    ensures Conserved(rest, live[x.addr := x.units], arena')
  {
    forall a | a in live ensures a + live[a] <= x.addr {
      var last := a + live[a] - 1;
      assert Block(a, live[a]).Has(last) && InLive(live, last);
    }
    forall u: nat ensures InLive(live[x.addr := x.units], u) <==> InLive(live, u) || x.Has(u) {
      AddedLive(live, x, u);
    }
  }

  lemma {:induction false} BlockCovers(b: seq<Block>, i: nat, u: nat)
    requires i < |b| && b[i].Has(u)
    ensures Covers(b, u)
  {
    if i > 0 { BlockCovers(b[1..], i - 1, u); }
  }

  /** The address of a node on the circle is never the address of a live block. */
  lemma NodeNotLive(rest: seq<Block>, size: map<nat, nat>, live: map<nat, nat>, arena: set<nat>, i: nat)
    requires Ordered(BASE, rest) && LiveOk(size, live) && Conserved(rest, live, arena) && i <= |rest|
    ensures Circle(rest)[i].addr !in live
  {
    if i > 0 {
      var a := rest[i - 1].addr;
      NonEmpty(BASE, rest, i - 1);
      BlockCovers(rest, i - 1, a);
      assert !InLive(live, a);
      assert a in live ==> Block(a, live[a]).Has(a);
    }
  }

  lemma {:induction false} NonEmpty(floor: nat, b: seq<Block>, i: nat)
    requires Ordered(floor, b) && i < |b|
    ensures b[i].units >= 1
    decreases b
  {
    if i > 0 { NonEmpty(b[0].End(), b[1..], i - 1); }
  }

  lemma FreedCircle(rest: seq<Block>, x: Block)
    requires x.addr > BASE
    ensures Freed(Circle(rest), x) == Circle(Freed(rest, x))
  {
    assert Circle(rest)[1..] == rest;
  }

  lemma CircleCovers(rest: seq<Block>, x: Block)
    requires Clear(rest, x)
    ensures Clear(Circle(rest), x)
  {
    assert Circle(rest)[1..] == rest;
  }

  ghost function BlockUnits(x: Block): (s: set<nat>)
    ensures forall u: nat :: u in s <==> x.Has(u)
    decreases x.units
  {
    if x.units == 0 then {} else {x.addr} + BlockUnits(Block(x.addr + 1, x.units - 1))
  }

  /** A header above the whole arena is none of the free list's. */
  lemma GrownChain(ptr: map<nat, nat>, size: map<nat, nat>, rest: seq<Block>, live: map<nat, nat>, arena: set<nat>,
                   x: Block, brk: nat)
    requires Ordered(BASE, rest) && Conserved(rest, live, arena) && (forall u :: u in arena ==> u < brk)
    requires Chain(ptr, size, Circle(rest), BASE) && BASE < brk <= x.addr
    ensures Chain(ptr, size[x.addr := x.units], Circle(rest), BASE)
  {
    forall i: nat | i < |Circle(rest)| ensures Circle(rest)[i].addr != x.addr {
      if i > 0 {
        NonEmpty(BASE, rest, i - 1);
        BlockCovers(rest, i - 1, rest[i - 1].addr);
      }
    }
    ChainElsewhere(ptr, size, Circle(rest), BASE, x);
  }

  lemma {:induction false} ChainElsewhere(ptr: map<nat, nat>, size: map<nat, nat>, b: seq<Block>, end: nat, x: Block)
    requires Chain(ptr, size, b, end)
    requires forall i: nat :: i < |b| ==> b[i].addr != x.addr
    ensures Chain(ptr, size[x.addr := x.units], b, end)
  {
    if b != [] {
      forall i: nat | i < |b[1..]| ensures b[1..][i].addr != x.addr { assert b[1..][i] == b[i + 1]; }
      ChainElsewhere(ptr, size, b[1..], end, x);
    }
  }

  lemma FreeKeepsHeap(ptr: map<nat, nat>, size: map<nat, nat>, rest: seq<Block>, live: map<nat, nat>, arena: set<nat>,
                      j: nat, p: nat, x: Block)
    requires Ordered(BASE, rest) && LiveOk(size, live) && Conserved(rest, live, arena)
    requires Chain(ptr, size, Circle(rest), BASE) && x.addr in live && live[x.addr] == x.units
    requires Clear(rest, x) && Slot(Circle(rest), j, x) && p == Circle(rest)[j].addr
    ensures p != x.addr && p in ptr && p in size && (x.End() == ptr[p] ==> ptr[p] in ptr && ptr[p] in size)
    ensures Chain(FreedPtr(ptr, size, p, x), FreedSize(ptr, size, p, x), Circle(Freed(rest, x)), BASE)
    ensures Ordered(BASE, Freed(rest, x)) && OnCircle(Freed(rest, x), p)
    ensures LiveOk(FreedSize(ptr, size, p, x), live - {x.addr}) && Conserved(Freed(rest, x), live - {x.addr}, arena)
  {
    CircleCovers(rest, x);
    FreedChain(ptr, size, Block(BASE, 0), rest, j, p, x, BASE);
    FreedCircle(rest, x);
    FreedKeeps(BASE, rest, x);
    NodeNotLive(rest, size, live, arena, j);
    LiveFreed(rest, Freed(rest, x), size, FreedSize(ptr, size, p, x), live, x, arena);
    assert Circle(Freed(rest, x))[j].addr == p;
  }

  lemma CutKeepsHeap(ptr: map<nat, nat>, size: map<nat, nat>, rest: seq<Block>, live: map<nat, nat>, arena: set<nat>,
                     k: nat, prev: nat, p: nat, n: nat, q: nat)
    requires Ordered(BASE, rest) && LiveOk(size, live) && Conserved(rest, live, arena)
    requires Chain(ptr, size, Circle(rest), BASE) && k < |rest|
    requires prev == Circle(rest)[k].addr && p == rest[k].addr && 1 <= n <= rest[k].units && q == p + rest[k].units - n
    ensures p in ptr && p in size && size[p] == rest[k].units
    ensures Chain(CutPtr(ptr, size, prev, p, n), CutSize(size, p, n), Circle(Cut(rest, k, n)), BASE)
    ensures Ordered(BASE, Cut(rest, k, n)) && OnCircle(Cut(rest, k, n), prev)
    ensures q !in live && LiveOk(CutSize(size, p, n), live[q := n])
    ensures Conserved(Cut(rest, k, n), live[q := n], arena)
  {
    CutChain(ptr, size, Block(BASE, 0), rest, k, prev, p, n, BASE);
    CutKeeps(BASE, rest, k, n);
    NodeNotLive(rest, size, live, arena, k + 1);
    var x := Block(q, n);
    TailCovers(rest, k, x);
    TakenNotLive(rest, size, live, arena, x);
    LiveTaken(rest, Cut(rest, k, n), size, CutSize(size, p, n), live, x, arena);
    assert Circle(Cut(rest, k, n))[k].addr == prev;
  }

  lemma TailCovers(rest: seq<Block>, k: nat, x: Block)
    requires k < |rest| && x.units <= rest[k].units && x.End() == rest[k].End()
    ensures forall u: nat :: x.Has(u) ==> Covers(rest, u)
    ensures x.units >= 1 ==> Covers(rest, x.addr)
  {
    forall u: nat | x.Has(u) ensures Covers(rest, u) { BlockCovers(rest, k, u); }
    if x.units >= 1 { BlockCovers(rest, k, x.addr); }
  }

  lemma TakenNotLive(rest: seq<Block>, size: map<nat, nat>, live: map<nat, nat>, arena: set<nat>, x: Block)
    requires LiveOk(size, live) && Conserved(rest, live, arena) && Covers(rest, x.addr)
    ensures x.addr !in live
  {
    assert !InLive(live, x.addr);
    assert x.addr in live ==> Block(x.addr, live[x.addr]).Has(x.addr);
  }

  /** The nodes that malloc has passed, after index f and up to index i of the circle, are too small. */
  ghost predicate NoneFits(rest: seq<Block>, f: nat, i: nat, n: nat) {
    forall t :: 0 <= t <= |rest| && (if f <= i then f < t <= i else t > f || t <= i) ==> Circle(rest)[t].units < n
  }

  function After(rest: seq<Block>, i: nat): nat {
    if i < |rest| then i + 1 else 0
  }

  lemma CircleAt(ptr: map<nat, nat>, size: map<nat, nat>, rest: seq<Block>, i: nat)
    requires Chain(ptr, size, Circle(rest), BASE) && i <= |rest|
    ensures Circle(rest)[i].addr in ptr && ptr[Circle(rest)[i].addr] == Circle(rest)[After(rest, i)].addr
    ensures Circle(rest)[i].addr in size && size[Circle(rest)[i].addr] == Circle(rest)[i].units
  {
    ChainAt(ptr, size, Circle(rest), BASE, i);
  }

  /** malloc is back at freep exactly after a whole turn, and then no free block was large enough. */
  lemma NextFits(rest: seq<Block>, f: nat, i: nat, n: nat)
    requires Ordered(BASE, rest) && f <= |rest| && i <= |rest| && NoneFits(rest, f, i, n)
    requires Circle(rest)[After(rest, i)].units < n
    ensures Circle(rest)[f].addr == Circle(rest)[After(rest, i)].addr <==> f == After(rest, i)
    ensures if f == After(rest, i) then !Fitting(rest, n) else NoneFits(rest, f, After(rest, i), n)
  {
    var k := After(rest, i);
    if f < k { CircleRises(rest, f, k); }
    if k < f { CircleRises(rest, k, f); }
    if f == k {
      forall t | 0 <= t < |rest| ensures rest[t].units < n { assert Circle(rest)[t + 1] == rest[t]; }
    }
  }

  // ----- The operations

  class Heap {
    var ptr: map<nat, nat>
    var size: map<nat, nat>
    var freep: nat
    var brk: nat
    ghost var rest: seq<Block>
    ghost var live: map<nat, nat>
    ghost var arena: set<nat>
    ghost var refusals: nat      // how often the system had no memory to give

    ghost predicate Valid()
      reads this
    {
      Valid'(brk)
    }

    /** The heap is well formed and lies below end. */
    ghost predicate Valid'(end: nat)
      reads this
    {
      && BASE < end && (forall u :: u in arena ==> u < end)
      && Ordered(BASE, rest) && LiveOk(size, live) && Conserved(rest, live, arena)
      && (freep == 0 ==> arena == {})
      && (freep != 0 ==> Chain(ptr, size, Circle(rest), BASE) && OnCircle(rest, freep))
    }

    /** p is the i-th node of the circle, and its header says so. */
    ghost predicate At(i: nat, p: nat)
      reads this
    {
      && i <= |rest| && Circle(rest)[i].addr == p
      && p in ptr && ptr[p] == Circle(rest)[After(rest, i)].addr
      && p in size && size[p] == Circle(rest)[i].units
    }

    constructor (end: nat)
      requires BASE < end
      ensures Valid() && freep == 0 && live == map[] && arena == {} && rest == [] && refusals == 0
    {
      refusals := 0;
      ptr, size, freep, brk := map[], map[], 0, end;
      rest, live, arena := [], map[], {};
    }

    /** Finds the free block after which bp belongs in address order; the last one if bp lies outside all of them. */
    method Search(bp: nat, ghost x: Block, ghost j: nat) returns (p: nat)
      requires Valid() && freep != 0 && x.addr == bp && Slot(Circle(rest), j, x)
      ensures p == Circle(rest)[j].addr && p != 0
    {
      ghost var b := Circle(rest);
      ghost var i :| 0 <= i <= |rest| && b[i].addr == freep;
      p := freep;
      while true
        invariant 0 <= i <= |rest| && p == b[i].addr
        decreases if i <= j then j - i else j - i + |b|
      {
        ChainAt(ptr, size, b, BASE, i);
        SearchStops(rest, i, j, x);
        if bp > p && bp < ptr[p] { break; }
        if p >= ptr[p] && (bp > p || bp < ptr[p]) { break; }
        p := ptr[p];
        i := if i < |rest| then i + 1 else 0;
      }
      if j > 0 { CircleRises(rest, 0, j); }
    }

    /** Give a live block back: afterwards the free list is the old one with the block in place and joined. */
    method Free(ap: nat)
      requires Valid() && ap >= 1 && ap - 1 in live
      modifies `ptr, `size, `freep, `rest, `live
      ensures Valid() && freep != 0
      ensures live == old(live) - {ap - 1}
      ensures rest == Freed(old(rest), Block(ap - 1, old(live)[ap - 1]))
    {
      var bp := ap - 1;
      ghost var x := Block(bp, live[bp]);
      forall u: nat | x.Has(u) ensures !Covers(rest, u) { assert InLive(live, u); }
      assert x.Has(bp) && InLive(live, bp);
      ghost var j := SlotExists(BASE, Block(BASE, 0), rest, x);
      var p := Search(bp, x, j);
      FreeKeepsHeap(ptr, size, rest, live, arena, j, p, x);
      Link(bp, p, x);
      freep := p;
      rest, live := Freed(rest, x), live - {bp};
    }

    /** The header writes of free, once the place is found. */
    method Link(bp: nat, p: nat, ghost x: Block)
      requires bp in size && x == Block(bp, size[bp]) && p in ptr && p in size && p != bp
      requires x.End() == ptr[p] ==> ptr[p] in ptr && ptr[p] in size
      modifies `ptr, `size
      ensures ptr == FreedPtr(old(ptr), old(size), p, x)
      ensures size == FreedSize(old(ptr), old(size), p, x)
    {
      if bp + size[bp] == ptr[p] {
        size := size[bp := size[bp] + size[ptr[p]]];
        ptr := ptr[bp := ptr[ptr[p]]];
      } else {
        ptr := ptr[bp := ptr[p]];
      }
      if p + size[p] == bp {
        size := size[p := size[p] + size[bp]];
        ptr := ptr[p := ptr[bp]];
      } else {
        ptr := ptr[p := bp];
      }
    }

    /**
     * sbrk: the system may refuse; otherwise the new units lie above all earlier ones. Panic is a request to shrink, or
     * for nothing: the heap's own end would be taken away from it.
     */
    method Sbrk(bytes: int) returns (r: Outcome<Option<nat>>)
      requires bytes % HEADER == 0
      modifies `brk, `refusals
      ensures r.Panic? <==> bytes <= 0
      ensures refusals == old(refusals) + if r == Done(None) then 1 else 0
      ensures r.Done? && r.value.None? ==> brk == old(brk)
      ensures r.Done? && r.value.Some? ==> r.value.value >= old(brk) && brk == r.value.value + bytes / HEADER
    {
      if bytes <= 0 {
        return Panic;
      }
      if * {
        refusals := refusals + 1;
        return Done(None);
      }
      var at: nat := *;
      if at < brk {
        at := brk;
      }
      brk := at + bytes / HEADER;
      return Done(Some(at));
    }

    /**
     * What malloc has done, given the free blocks, live blocks and arena before: it has handed out n new live units, or
     * none; no other live block has changed, and the arena has grown only if no free block was large enough.
     */
    ghost predicate Served(rest0: seq<Block>, live0: map<nat, nat>, arena0: set<nat>, n: nat, ap: nat)
      reads `live, `arena
    {
      && (if ap != 0 then ap - 1 !in live0 && live == live0[ap - 1 := n]
          else live == live0 && arena == arena0 && !Fitting(rest0, n))
      && arena0 <= arena && (arena0 < arena ==> !Fitting(rest0, n))
    }

    /** Get at least n more units and put them on the free list; some free block then has n units. */
    method Morecore(n: nat, ghost nbytes: nat) returns (r: Outcome<nat>, ghost f: nat)
      requires Valid() && freep != 0
      requires nbytes < UINT_LIMIT && n == Units(nbytes)
      modifies this
      ensures r.Panic? <==> Ask(n) <= 0
      ensures r.Done? ==> refusals == old(refusals) + if r.value == 0 then 1 else 0
      ensures r.Done? ==> Valid() && freep != 0 && live == old(live)
      ensures r == Done(0) ==> rest == old(rest) && arena == old(arena)
      ensures r.Done? && r.value != 0 ==>
        && r.value == freep && Fitting(rest, n) && old(arena) < arena && At(f, r.value)
        && brk >= old(brk) + n && brk >= old(brk) + MINGROW
    {
      f := 0;
      if Ask(n) > 0 { AskIsExact(nbytes); }
      var nu := if n < MINGROW then MINGROW else n;
      var got :- Sbrk(Ask(n));
      if got.None? { return Done(0), 0; }
      f := Grow(got.value, nu, old(brk));
      r := Done(freep);
    }

    /** The units at hp, which the system has just given, go on the free list. */
    method Grow(hp: nat, nu: nat, ghost end: nat) returns (ghost f: nat)
      requires Valid'(end) && freep != 0 && end <= hp && brk == hp + nu && nu >= 1
      modifies `ptr, `size, `freep, `rest, `live, `arena
      ensures Valid() && freep != 0 && live == old(live) && Fitting(rest, nu) && old(arena) < arena && At(f, freep)
    {
      Adopt(hp, nu, end);
      FreedFits(rest, Block(hp, nu));
      Free(hp + 1);
      assert Block(hp, nu).Has(hp);
      f :| 0 <= f <= |rest| && Circle(rest)[f].addr == freep;
      CircleAt(ptr, size, rest, f);
    }

    /** The new units are one live block until free puts them on the list. */
    method Adopt(hp: nat, nu: nat, ghost end: nat)
      requires Valid'(end) && freep != 0 && end <= hp && brk == hp + nu && nu >= 1
      modifies `size, `live, `arena
      ensures Valid() && hp in live && live[hp] == nu
      ensures live - {hp} == old(live) && hp !in old(arena) && arena == old(arena) + BlockUnits(Block(hp, nu))
    {
      ghost var x := Block(hp, nu);
      ghost var more := arena + BlockUnits(x);
      LiveGrown(rest, size, live, x, arena, end, more);
      GrownChain(ptr, size, rest, live, arena, x, end);
      size := size[hp := nu];
      live, arena := live[hp := nu], more;
    }

    /** Take n units from the end of the block at p, or all of it, and leave freep at its predecessor. */
    method Take(prevp: nat, p: nat, n: nat, ghost k: nat) returns (ap: nat)
      requires Valid() && freep != 0 && k < |rest| && n >= 1 && rest[k].units >= n
      requires prevp == Circle(rest)[k].addr && p == rest[k].addr
      modifies `ptr, `size, `freep, `rest, `live
      ensures Valid() && ap != 0 && ap - 1 !in old(live) && live == old(live)[ap - 1 := n]
    {
      ghost var at := p + rest[k].units - n;
      CutKeepsHeap(ptr, size, rest, live, arena, k, prevp, p, n, at);
      if k > 0 { CircleRises(rest, 0, k); }
      var q := Carve(prevp, p, n);
      assert q == at;
      freep := prevp;
      rest, live := Cut(rest, k, n), live[at := n];
      return q + 1;
    }

    /** The header writes of malloc, once the block is found. */
    method Carve(prevp: nat, p: nat, n: nat) returns (q: nat)
      requires p in ptr && p in size && size[p] >= n
      modifies `ptr, `size
      ensures ptr == CutPtr(old(ptr), old(size), prevp, p, n) && size == CutSize(old(size), p, n)
      ensures q == p + old(size)[p] - n
    {
      q := p;
      if size[p] == n {
        ptr := ptr[prevp := ptr[p]];
      } else {
        size := size[p := size[p] - n];
        q := p + size[p];
        size := size[q := n];
      }
    }

    /**
     * malloc: the address of n = Units(nbytes) new live units, found first-fit from freep, or 0 exactly if the system
     * has no memory to give. No other live block changes, and the system is asked only when no free block is large
     * enough.
     */
    method Malloc(nbytes: nat) returns (r: Outcome<nat>)
      requires Valid() && nbytes < UINT_LIMIT
      modifies this
      ensures r.Panic? <==> Ask(Units(nbytes)) <= 0 && !Fitting(old(rest), Units(nbytes))
      ensures r.Done? ==> refusals == old(refusals) + if r.value == 0 then 1 else 0
      ensures r.Done? ==> Valid() && Served(old(rest), old(live), old(arena), Units(nbytes), r.value)
    {
      var n := Units(nbytes);
      var prevp := freep;
      if prevp == 0 {
        Start();
        prevp := BASE;
      }
      r := FirstFit(n, prevp, nbytes);
    }

    /** First fit: cuts n units from the first block that is large enough; grows the arena when none is. */
    method FirstFit(n: nat, start: nat, ghost nbytes: nat) returns (r: Outcome<nat>)
      requires Valid() && freep != 0 && start == freep
      requires nbytes < UINT_LIMIT && n == Units(nbytes)
      modifies this
      ensures r.Panic? <==> Ask(n) <= 0 && !Fitting(old(rest), n)
      ensures r.Done? ==> refusals == old(refusals) + if r.value == 0 then 1 else 0
      ensures r.Done? ==> Valid() && Served(old(rest), old(live), old(arena), n, r.value)
    {
      var prevp := start;
      ghost var f: nat :| f <= |rest| && Circle(rest)[f].addr == freep;
      ghost var i: nat, grown := f, false;
      CircleAt(ptr, size, rest, i);
      var p := ptr[prevp];
      while true
        invariant Valid() && freep != 0 && live == old(live) && old(arena) <= arena
        invariant f <= |rest| && Circle(rest)[f].addr == freep && At(i, prevp) && p == ptr[prevp]
        invariant NoneFits(rest, f, i, n)
        invariant !grown ==> rest == old(rest) && arena == old(arena)
        invariant refusals == old(refusals)
        invariant grown ==> Fitting(rest, n) && !Fitting(old(rest), n) && Ask(n) > 0
        decreases if grown then 0 else 1, if i >= f then f + |rest| + 1 - i else f - i
      {
        ghost var next := After(rest, i);
        CircleAt(ptr, size, rest, next);
        if size[p] >= n {
          var ap := Take(prevp, p, n, i);
          return Done(ap);
        }
        NextFits(rest, f, i, n);
        if p == freep {
          grown := true;
          var more;
          more, f := Morecore(n, nbytes);
          if more.Panic? || more.value == 0 { return more; }
          p := more.value;
          next := f;
        }
        i := next;
        prevp := p;
        p := ptr[p];
      }
    }

    /** The first call of malloc: the circle is the header base alone, of size 0. */
    method Start()
      requires Valid() && freep == 0
      modifies `ptr, `size, `freep
      ensures Valid() && freep == BASE
    {
      FreeListIsCanonical(BASE, rest, BASE, []);
      ptr, size, freep := ptr[BASE := BASE], size[BASE := 0], BASE;
      assert Circle(rest)[0].addr == BASE;
    }
  }
}
