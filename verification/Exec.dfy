/** exec: loads an ELF file into a new address space, builds the user stack, and replaces the process image. */
module Exec {
  import opened Outcomes
  import opened Bytes
  import opened VmLedger
  import opened VmSpace
  import opened VmUser
  import opened VirtualMemory
  import opened ExecImage
  import opened ExecStack

  /** The process, and what it holds of the file system: open transactions and inode references. */
  class Process {
    var pgdir: nat
    var sz: nat
    var eip: nat
    var esp: nat
    var ops: nat
    var refs: nat

    constructor (pgdir: nat, sz: nat)
      ensures this.pgdir == pgdir && this.sz == sz && ops == refs == 0
    {
      this.pgdir, this.sz := pgdir, sz;
      eip, esp, ops, refs := 0, 0, 0, 0;
    }

    /** The image: what exec replaces. */
    ghost predicate SameImage(pgdir: nat, sz: nat, eip: nat, esp: nat)
      reads this
    {
      this.pgdir == pgdir && this.sz == sz && this.eip == eip && this.esp == esp
    }
  }

  // ----- What exec leaves behind

  /**
   * The space of the old image has been exchanged for space d, which is new: the frames of the old one are free, and
   * every page of every other space has kept its frame and its contents.
   */
  ghost predicate Exchanged(v: View, v': View, was: nat, d: nat) {
    && d !in v.spaces && d in v'.spaces && v'.spaces == (v.spaces - {was})[d := v'.spaces[d]]
    && Pool(v') == Pool(v) && v'.held == v.held && FramesOf(v, was) <= v'.free
    && |v'.mem| == |v.mem|
    && forall f: nat {:trigger v'.mem[f]} :: OthersPage(v, was, f) && f < |v.mem| ==>
       OthersPage(v', was, f) && v'.mem[f] == v.mem[f]
  }

  /** Frame f holds a user page of another space. */
  ghost predicate OthersPage(v: View, was: nat, f: nat) {
    f in v.role && v.role[f].User? && v.role[f].d != was
  }

  /** Space d holds the file's image and, above it, the guard page and the stack that main expects. */
  ghost predicate Ready(now: View, d: nat, sz: nat, sp: nat, file: seq<byte>, argv: seq<seq<byte>>, ptrs: seq<nat>) {
    && IsElf(file) && sz == StackTop(file) && d in now.spaces && Sized(now.spaces[d], sz) && sz % PGSIZE == 0
    && 2 * PGSIZE <= sz < KERNBASE
    && Imaged(now, d, sz - 2 * PGSIZE, file, SegmentsOf(file))
    && !UserBit(now.spaces[d].pte[sz / PGSIZE - 2])
    && StackBuilt(now, d, sz, sp, argv, ptrs)
  }

  /** The process is about to run the file's entry point in the new image. */
  ghost predicate Started(now: View, proc: Process, file: seq<byte>, argv: seq<seq<byte>>, ptrs: seq<nat>)
    reads proc
  {
    Ready(now, proc.pgdir, proc.sz, proc.esp, file, argv, ptrs) && proc.eip == EntryPoint(file)
  }

  /** What becomes of exec, as far as kalloc refuses no frame. */
  function ExecFate(kmap: seq<KernelRange>, program: Option<seq<byte>>, argv: seq<seq<byte>>): Fate {
    if program.None? || !Loadable(program.value) || StackTop(program.value) >= KERNBASE then Refused
    else StackFate(kmap, StackTop(program.value), argv)
  }

  /**
   * exec reads through a null pointer exactly if it comes to a string that does not fit below
   * the stack pointer and wraps to where no page table is.
   */
  lemma ReadsNullExactlyWhen(kmap: seq<KernelRange>, program: Option<seq<byte>>, argv: seq<seq<byte>>)
    ensures ExecFate(kmap, program, argv).ReadsNull? <==>
            && program.Some? && Loadable(program.value) && StackTop(program.value) < KERNBASE
            && exists k: nat, sp: nat ::
               ReadsNullAt(kmap, StackTop(program.value), StackTop(program.value), argv, 0, k, sp)
  {
    if program.Some? && Loadable(program.value) && StackTop(program.value) < KERNBASE {
      var sz := StackTop(program.value);
      StringsReadNullWhen(kmap, sz, sz, argv, 0);
    }
  }

  /** From string i with stack pointer sp on, all strings before k fit, and leave the stack pointer at sp'. */
  predicate Comes(kmap: seq<KernelRange>, sz: nat, sp: nat, argv: seq<seq<byte>>, i: nat, k: nat, sp': nat)
    decreases |argv| - i
  {
    if i == k then sp' == sp
    else i < |argv| && i < MAXARG && var f := PushFate(kmap, sz, sp, |argv[i]| + 1);
      f.Fits? && Comes(kmap, sz, f.sp, argv, i + 1, k, sp')
  }

  /**
   * String k is the first that does not fit below its stack pointer
   * sp', and there is no page table where it wraps to.
   */
  predicate ReadsNullAt(kmap: seq<KernelRange>, sz: nat, sp: nat, argv: seq<seq<byte>>, i: nat, k: nat, sp': nat) {
    && Comes(kmap, sz, sp, argv, i, k, sp')
    && k < |argv| && k < MAXARG && |argv[k]| + 1 > sp' && !Covered(kmap, Down(sp', |argv[k]| + 1))
  }

  lemma {:induction false} StringsReadNullWhen(kmap: seq<KernelRange>, sz: nat, sp: nat, argv: seq<seq<byte>>, i: nat)
    ensures StringsFate(kmap, sz, sp, argv, i).ReadsNull? <==>
      exists k: nat, sp': nat :: ReadsNullAt(kmap, sz, sp, argv, i, k, sp')
    decreases |argv| - i
  {
    if i < |argv| && i < MAXARG {
      var f := PushFate(kmap, sz, sp, |argv[i]| + 1);
      if f.Fits? {
        var next, low := i + 1, f.sp;
        StringsReadNullWhen(kmap, sz, low, argv, next);
        if k: nat, sp': nat :| ReadsNullAt(kmap, sz, low, argv, next, k, sp') {
          NeverBack(kmap, sz, low, argv, next, k, sp');
          assert ReadsNullAt(kmap, sz, sp, argv, i, k, sp');
        }
        if k: nat, sp': nat :| ReadsNullAt(kmap, sz, sp, argv, i, k, sp') {
          assert ReadsNullAt(kmap, sz, low, argv, next, k, sp');
        }
      } else if f.ReadsNull? {
        assert ReadsNullAt(kmap, sz, sp, argv, i, i, sp);
      }
    }
  }

  lemma {:induction false} NeverBack(kmap: seq<KernelRange>, sz: nat, sp: nat, argv: seq<seq<byte>>, i: nat, k: nat,
                                     sp': nat)
    requires Comes(kmap, sz, sp, argv, i, k, sp')
    ensures k >= i
    decreases |argv| - i
  {
    if i != k {
      var f := PushFate(kmap, sz, sp, |argv[i]| + 1);
      NeverBack(kmap, sz, f.sp, argv, i + 1, k, sp');
    }
  }

  lemma StackOutlives(v: View, v': View, d: nat, was: nat, sz: nat, sp: nat, argv: seq<seq<byte>>, ptrs: seq<nat>,
                      file: seq<byte>,
                      segs: seq<ProgHdr>)
    requires Roles(v) && Gone(v, v', was) && d != was && d in v.spaces && StackBuilt(v, d, sz, sp, argv, ptrs)
      && sz >= 2 * PGSIZE
    requires Imaged(v, d, sz - 2 * PGSIZE, file, segs)
    ensures StackBuilt(v', d, sz, sp, argv, ptrs) && Imaged(v', d, sz - 2 * PGSIZE, file, segs)
      && v'.spaces[d] == v.spaces[d]
  {
    forall a: nat | Mapt(v, d, a)
      ensures Mapt(v', d, a) && ByteAt(v', d, a) == ByteAt(v, d, a)
    {
      var f := Frame(v.spaces[d].pte[a / PGSIZE]);
      assert v.role[f] == User(d, a / PGSIZE);
    }
    BlockOutlives(v, v', d, sp, ptrs);
    forall k | 0 <= k < |ptrs|
      ensures sp + 4 * (4 + |argv|) <= ptrs[k] && Placed(v', d, sz, argv, ptrs, k)
    {
      assert Placed(v, d, sz, argv, ptrs, k);
      BytesOutlive(v, v', d, ptrs[k], argv[k] + [0]);
    }
    forall a: nat | a < sz - 2 * PGSIZE
      ensures Shows(v', d, a, ImageByte(file, segs, a))
    {
      assert Shows(v, d, a, ImageByte(file, segs, a));
    }
  }

  lemma BlockOutlives(v: View, v': View, d: nat, sp: nat, ptrs: seq<nat>)
    requires BlockAt(v, d, sp, ptrs)
    requires forall b: nat :: Mapt(v, d, b) ==> Mapt(v', d, b) && ByteAt(v', d, b) == ByteAt(v, d, b)
    ensures BlockAt(v', d, sp, ptrs)
  {
    WordOutlives(v, v', d, sp, 0xFFFF_FFFF);
    WordOutlives(v, v', d, sp + 4, |ptrs|);
    WordOutlives(v, v', d, sp + 8, sp + 12);
    WordOutlives(v, v', d, sp + 12 + 4 * |ptrs|, 0);
    forall k | 0 <= k < |ptrs|
      ensures WordAt(v', d, sp + 12 + 4 * k, ptrs[k])
    {
      WordOutlives(v, v', d, sp + 12 + 4 * k, ptrs[k]);
    }
  }

  lemma WordOutlives(v: View, v': View, d: nat, a: nat, w: nat)
    requires WordAt(v, d, a, w)
    requires forall b: nat :: Mapt(v, d, b) ==> Mapt(v', d, b) && ByteAt(v', d, b) == ByteAt(v, d, b)
    ensures WordAt(v', d, a, w)
  {
    BytesOutlive(v, v', d, a, WordBytes(w));
  }

  lemma BytesOutlive(v: View, v': View, d: nat, a: nat, data: seq<byte>)
    requires BytesAt(v, d, a, data)
    requires forall b: nat :: Mapt(v, d, b) ==> Mapt(v', d, b) && ByteAt(v', d, b) == ByteAt(v, d, b)
    ensures BytesAt(v', d, a, data)
  {
  }

  lemma ExchangedNow(v: View, w: View, now: View, was: nat, d: nat)
    requires Ledger(v) && Ledger(w) && Ledger(now) && Added(v, w, d) && Gone(w, now, was) && was in v.spaces
    ensures Exchanged(v, now, was, d)
  {
    assert now.spaces == (v.spaces - {was})[d := now.spaces[d]];
    forall f ensures f in Pool(now) <==> f in Pool(w) {
      if f in FramesOf(w, was) {
        assert f in w.role;
      }
    }
    forall f | f in FramesOf(v, was)
      ensures f in now.free
    {
      assert f in FramesOf(w, was);
    }
    forall f: nat | OthersPage(v, was, f) && f < |v.mem|
      ensures OthersPage(now, was, f) && now.mem[f] == v.mem[f]
    {
      assert w.mem[f] == v.mem[f];
      assert f !in FramesOf(w, was);
    }
  }

  // ----- exec

  /**
   * exec. On success the process has a new image: the file's bytes and zeros, the stack that main expects, the file's
   * entry point; every frame of the old image is free, and every other process's pages are as they were. On failure
   * nothing has changed but the contents of free frames. Either way every inode reference and every transaction it
   * opened is closed. Unless kalloc refuses a frame, which makes it fail, ExecFate says which of these it is, or
   * whether it reads through a null pointer. program is what namei finds: the file's contents, if there is one.
   */
  method Exec(m: Machine, proc: Process, program: Option<seq<byte>>, argv: seq<seq<byte>>)
    returns (r: Outcome<int>, ghost ptrs: seq<nat>)
    requires m.Valid() && proc.pgdir in m.spaces && (program.Some? ==> |program.value| < WORD_LIMIT)
    requires forall k :: 0 <= k < |argv| ==> |argv[k]| + 1 < KERNBASE
    modifies m, proc
    ensures old(m.refusals) <= m.refusals && (old(m.refusals) < m.refusals ==> r == Done(-1))
    ensures old(m.refusals) == m.refusals ==> Ends(r, ExecFate(m.kmap, program, argv))
    ensures r.Done? ==>
      m.Valid() && (r.value == 0 || r.value == -1) && proc.ops == old(proc.ops) && proc.refs == old(proc.refs)
    ensures r == Done(-1) ==>
      && Restored(old(m.Now()), m.Now()) && proc.SameImage(old(proc.pgdir), old(proc.sz), old(proc.eip), old(proc.esp))
    ensures r == Done(0) ==>
      && program.Some? && Exchanged(old(m.Now()), m.Now(), old(proc.pgdir), proc.pgdir)
      && Started(m.Now(), proc, program.value, argv, ptrs)
  {
    ptrs := [];
    ghost var v := m.Now();
    proc.ops := proc.ops + 1;
    if program.None? {
      proc.ops := proc.ops - 1;
      return Done(-1), ptrs;
    }
    proc.refs := proc.refs + 1;
    var ok, d, sz0, entry := LoadImage(m, program.value, v);
    if !ok && d != 0 {
      m.Discard(d, v);
    }
    proc.refs := proc.refs - 1;
    proc.ops := proc.ops - 1;
    if !ok {
      return Done(-1), ptrs;
    }
    r, ptrs := Launch(m, proc, d, sz0, entry, argv, v, program.value);
  }

  /** How exec ends when its fate has been settled. */
  predicate Ends(r: Outcome<int>, f: Fate) {
    match f
    case Fits(_) => r == Done(0)
    case Refused => r == Done(-1)
    case ReadsNull => r == Panic
  }

  /** The part of exec after the file is closed. */
  method Launch(m: Machine, proc: Process, d: nat, sz0: nat, entry: nat, argv: seq<seq<byte>>, ghost v: View,
                ghost file: seq<byte>)
    returns (r: Outcome<int>, ghost ptrs: seq<nat>)
    requires m.Valid() && ImageBuilt(m.kmap, v, m.Now(), d, file) && sz0 == ImageSize(file) && entry == EntryPoint(file)
    requires proc.pgdir in v.spaces && forall k :: 0 <= k < |argv| ==> |argv[k]| + 1 < KERNBASE
    modifies m, proc
    ensures old(m.refusals) <= m.refusals && (old(m.refusals) < m.refusals ==> r == Done(-1))
    ensures old(m.refusals) == m.refusals ==> Ends(r, ExecFate(m.kmap, Some(file), argv))
    ensures r.Done? ==>
      m.Valid() && (r.value == 0 || r.value == -1) && proc.ops == old(proc.ops) && proc.refs == old(proc.refs)
    ensures r == Done(-1) ==>
      && Restored(v, m.Now()) && proc.SameImage(old(proc.pgdir), old(proc.sz), old(proc.eip), old(proc.esp))
    ensures r == Done(0) ==>
      && Exchanged(v, m.Now(), old(proc.pgdir), proc.pgdir) && Started(m.Now(), proc, file, argv, ptrs)
  {
    var built, sz, sp, ps := BuildStack(m, d, sz0, argv, v, file, SegmentsOf(file));
    ptrs := ps;
    if built.Panic? {
      return Panic, ptrs;
    }
    if !built.value {
      m.Discard(d, v);
      return Done(-1), ptrs;
    }
    Commit(m, proc, d, sz, sp, entry, v, file, argv, ptrs);
    return Done(0), ptrs;
  }

  /** Commit to the user image: the new fields, then freevm(oldpgdir). */
  method Commit(m: Machine, proc: Process, d: nat, sz: nat, sp: nat, entry: nat, ghost v: View, ghost file: seq<byte>,
                ghost argv: seq<seq<byte>>, ghost ptrs: seq<nat>)
    requires m.Valid() && IsElf(file) && sz == StackTop(file) && entry == EntryPoint(file) && proc.pgdir in v.spaces
    requires Staged(m.kmap, v, m.Now(), d, sz, file, SegmentsOf(file)) && StackBuilt(m.Now(), d, sz, sp, argv, ptrs)
    modifies m, proc
    ensures m.Valid() && proc.ops == old(proc.ops) && proc.refs == old(proc.refs) && m.refusals == old(m.refusals)
    ensures Exchanged(v, m.Now(), old(proc.pgdir), proc.pgdir) && Started(m.Now(), proc, file, argv, ptrs)
  {
    var oldpgdir := proc.pgdir;
    proc.pgdir := d;
    proc.sz := sz;
    proc.eip := entry;
    proc.esp := sp;
    FreeOld(m, oldpgdir, d, sz, sp, v, file, argv, ptrs);
  }

  /** Frees the old space; the new image is untouched. */
  method FreeOld(m: Machine, oldpgdir: nat, d: nat, sz: nat, sp: nat, ghost v: View, ghost file: seq<byte>,
                 ghost argv: seq<seq<byte>>, ghost ptrs: seq<nat>)
    requires m.Valid() && IsElf(file) && sz == StackTop(file) && oldpgdir in v.spaces
    requires Staged(m.kmap, v, m.Now(), d, sz, file, SegmentsOf(file)) && StackBuilt(m.Now(), d, sz, sp, argv, ptrs)
    modifies m
    ensures m.Valid() && Exchanged(v, m.Now(), oldpgdir, d) && Ready(m.Now(), d, sz, sp, file, argv, ptrs)
      && m.refusals == old(m.refusals)
  {
    ghost var w := m.Now();
    m.Freevm(oldpgdir);
    StackOutlives(w, m.Now(), d, oldpgdir, sz, sp, argv, ptrs, file, SegmentsOf(file));
    ExchangedNow(v, w, m.Now(), oldpgdir, d);
  }
}
