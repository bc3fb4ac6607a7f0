/**
 * Spin locks and sleep locks in every interleaving of their individual steps, and the nesting of interrupt disabling.
 */
module Locks {
  import opened Outcomes

  // ----- pushcli and popcli

  /** What a CPU keeps about interrupts: the nesting depth, the flag before the first push, and the flag itself. */
  datatype Irq = Irq(ncli: nat, intena: bool, enabled: bool) {
    /** Interrupts are off inside a push. */
    predicate Ok() {
      ncli > 0 ==> !enabled
    }

    function Push(): Irq {
      Irq(ncli + 1, if ncli == 0 then enabled else intena, false)
    }

    /** popcli halts when interrupts are on or nothing has been pushed. */
    function Pop(): Outcome<Irq> {
      if enabled || ncli == 0 then Panic
      else Done(Irq(ncli - 1, intena, ncli == 1 && intena))
    }
  }

  class Cpu {
    var ncli: int
    var intena: bool
    var flag: bool          // the interrupt flag of eflags

    ghost function State(): Irq
      requires ncli >= 0
      reads this
    {
      Irq(ncli, intena, flag)
    }

    method Pushcli()
      requires ncli >= 0
      modifies this
      ensures ncli >= 0 && State() == old(State()).Push()
    {
      var eflags := flag;
      flag := false;
      if ncli == 0 {
        intena := eflags;
      }
      ncli := ncli + 1;
    }

    method Popcli() returns (r: Outcome<()>)
      requires ncli >= 0
      modifies this
      ensures r.Panic? <==> old(State()).Pop().Panic?
      ensures r.Done? ==> ncli >= 0 && Done(State()) == old(State()).Pop()
    {
      if flag {
        return Panic;
      }
      ncli := ncli - 1;
      if ncli < 0 {
        return Panic;
      }
      if ncli == 0 && intena {
        flag := true;
      }
      return Done(());
    }
  }

  /** Matched nestings of pushes and pops. */
  datatype Nest = Skip | Around(inner: Nest) | Then(first: Nest, second: Nest)

  /** The interrupt state after a nesting. */
  function Nested(s: Irq, n: Nest): Outcome<Irq>
    decreases n
  {
    match n
    case Skip => Done(s)
    case Around(inner) =>
      var t :- Nested(s.Push(), inner);
      t.Pop()
    case Then(a, b) =>
      var t :- Nested(s, a);
      Nested(t, b)
  }

  /** A matched nesting never halts, and restores the depth and the interrupt flag; interrupts are off inside it. */
  lemma {:induction false} NestingRestores(s: Irq, n: Nest)
    requires s.Ok()
    ensures Nested(s, n).Done?
    ensures var t := Nested(s, n).value; t.Ok() && t.ncli == s.ncli && t.enabled == s.enabled && (s.ncli > 0 ==> t == s)
    ensures s.Push().Ok() && !s.Push().enabled
    decreases n
  {
    match n
    case Skip =>
    case Around(inner) =>
      NestingRestores(s.Push(), inner);
    case Then(a, b) =>
      NestingRestores(s, a);
      NestingRestores(Nested(s, a).value, b);
  }

  // ----- Spin locks

  /** Where a CPU is in its code, one step at a time; seen is what holding() has read of lk->locked. */
  datatype SpinPc =
    | Outside
    | CheckFree | CheckFreeCpu(seen: bool)       // acquire: holding(lk)
    | Spinning                                   // xchg(&lk->locked, 1)
    | Recording                                  // lk->cpu = mycpu()
    | Critical
    | CheckHeld | CheckHeldCpu(seen: bool)       // release: holding(lk)
    | Forgetting                                 // lk->cpu = 0
    | Unlocking                                  // lk->locked = 0
    | Leaving                                    // popcli()
    | Halted                                     // panic

  datatype Spin = Spin(locked: bool, holder: Option<nat>, pcs: map<nat, SpinPc>, irqs: map<nat, Irq>)

  /** From the exchange that took the lock to the store that gives it back. */
  predicate Owns(pc: SpinPc) {
    pc.Recording? || pc.Critical? || pc.CheckHeld? || pc.CheckHeldCpu? || pc.Forgetting? || pc.Unlocking?
  }

  /** While lk->cpu names this CPU. */
  predicate Recorded(pc: SpinPc) {
    pc.Critical? || pc.CheckHeld? || pc.CheckHeldCpu? || pc.Forgetting?
  }

  /** The next step of CPU c. */
  function SpinStep(s: Spin, c: nat): Spin
    requires c in s.pcs && c in s.irqs
  {
    var at := (pc: SpinPc) => s.(pcs := s.pcs[c := pc]);
    match s.pcs[c]
    case Outside => s.(pcs := s.pcs[c := CheckFree], irqs := s.irqs[c := s.irqs[c].Push()])
    case CheckFree => at(CheckFreeCpu(s.locked))
    case CheckFreeCpu(seen) => at(if seen && s.holder == Some(c) then Halted else Spinning)
    case Spinning => if s.locked then s else s.(locked := true, pcs := s.pcs[c := Recording])
    case Recording => s.(holder := Some(c), pcs := s.pcs[c := Critical])
    case Critical => at(CheckHeld)
    case CheckHeld => at(CheckHeldCpu(s.locked))
    case CheckHeldCpu(seen) => at(if seen && s.holder == Some(c) then Forgetting else Halted)
    case Forgetting => s.(holder := None, pcs := s.pcs[c := Unlocking])
    case Unlocking => s.(locked := false, pcs := s.pcs[c := Leaving])
    case Leaving =>
      (match s.irqs[c].Pop()
       case Done(irq) => s.(pcs := s.pcs[c := Outside], irqs := s.irqs[c := irq])
       case Panic => at(Halted))
    case Halted => s
  }

  /** The state is in order, and o is the CPU between the two stores to lk->locked, if there is one. */
  ghost predicate SpinOk(s: Spin, o: Option<nat>) {
    && s.irqs.Keys == s.pcs.Keys && (o.Some? ==> o.value in s.pcs) && (s.locked <==> o.Some?)
    && (forall c :: c in s.pcs ==> CpuOk(s, o, c, s.pcs[c], s.irqs[c]))
  }

  ghost predicate CpuOk(s: Spin, o: Option<nat>, c: nat, pc: SpinPc, irq: Irq) {
    && (Owns(pc) <==> o == Some(c)) && (Recorded(pc) <==> s.holder == Some(c))
    && !pc.Halted? && (pc.CheckHeldCpu? ==> pc.seen)
    && irq.Ok() && (!pc.Outside? ==> irq.ncli > 0)
  }

  /** The owner after a step of CPU c. */
  function NextOwner(s: Spin, o: Option<nat>, c: nat): Option<nat>
    requires c in s.pcs
  {
    if s.pcs[c].Spinning? && !s.locked then Some(c) else if s.pcs[c].Unlocking? then None else o
  }

  lemma SpinStepKeeps(s: Spin, o: Option<nat>, c: nat)
    requires SpinOk(s, o) && c in s.pcs
    ensures SpinOk(SpinStep(s, c), NextOwner(s, o, c))
  {
    var t, o' := SpinStep(s, c), NextOwner(s, o, c);
    forall d | d in t.pcs
      ensures CpuOk(t, o', d, t.pcs[d], t.irqs[d])
    {
      CpusKeep(s, o, c, d);
    }
    assert CpuOk(s, o, c, s.pcs[c], s.irqs[c]);
  }

  lemma CpusKeep(s: Spin, o: Option<nat>, c: nat, d: nat)
    requires SpinOk(s, o) && c in s.pcs && d in s.pcs
    ensures var t := SpinStep(s, c); d in t.pcs && d in t.irqs && CpuOk(t, NextOwner(s, o, c), d, t.pcs[d], t.irqs[d])
  {
    assert CpuOk(s, o, c, s.pcs[c], s.irqs[c]) && CpuOk(s, o, d, s.pcs[d], s.irqs[d]);
  }

  function SpinRun(s: Spin, cpus: seq<nat>): Spin
    requires s.irqs.Keys == s.pcs.Keys && forall i :: 0 <= i < |cpus| ==> cpus[i] in s.pcs
    decreases |cpus|
  {
    if cpus == [] then s else SpinRun(SpinStep(s, cpus[0]), cpus[1..])
  }

  ghost predicate SpinInitial(s: Spin) {
    && s.irqs.Keys == s.pcs.Keys && !s.locked && s.holder == None
    && forall c :: c in s.pcs ==> s.pcs[c].Outside? && s.irqs[c].Ok()
  }

  lemma {:induction false} SpinRunKeeps(s: Spin, o: Option<nat>, cpus: seq<nat>) returns (o': Option<nat>)
    requires SpinOk(s, o) && forall i :: 0 <= i < |cpus| ==> cpus[i] in s.pcs
    ensures SpinOk(SpinRun(s, cpus), o') && SpinRun(s, cpus).pcs.Keys == s.pcs.Keys
    decreases |cpus|
  {
    if cpus == [] {
      o' := o;
    } else {
      SpinStepKeeps(s, o, cpus[0]);
      o' := SpinRunKeeps(SpinStep(s, cpus[0]), NextOwner(s, o, cpus[0]), cpus[1..]);
    }
  }

  /**
   * Whatever the interleaving: two CPUs are never in the critical section, neither panic is reached, a CPU that is past
   * its pushcli has interrupts off, and the lock is never left locked without an owner.
   */
  lemma SpinLockIsSafe(s: Spin, cpus: seq<nat>, c: nat, d: nat)
    requires SpinInitial(s) && (forall i :: 0 <= i < |cpus| ==> cpus[i] in s.pcs) && c in s.pcs && d in s.pcs
    ensures var f := SpinRun(s, cpus);
            && c in f.pcs && d in f.pcs && c in f.irqs
            && (f.pcs[c].Critical? && f.pcs[d].Critical? ==> c == d)
            && !f.pcs[c].Halted? && (!f.pcs[c].Outside? ==> !f.irqs[c].enabled)
            && (f.locked <==> exists o :: o in f.pcs && Owns(f.pcs[o]))
  {
    var o := SpinRunKeeps(s, None, cpus);
    var f := SpinRun(s, cpus);
    assert CpuOk(f, o, c, f.pcs[c], f.irqs[c]) && CpuOk(f, o, d, f.pcs[d], f.irqs[d]);
    if o.Some? {
      assert CpuOk(f, o, o.value, f.pcs[o.value], f.irqs[o.value]);
    }
  }

  /** One CPU, n times. */
  function Alone(c: nat, n: nat): (cpus: seq<nat>)
    ensures forall i :: 0 <= i < |cpus| ==> cpus[i] == c
  {
    if n == 0 then [] else [c] + Alone(c, n - 1)
  }

  /** How many steps acquire still has to the critical section. */
  function ToCritical(pc: SpinPc): Option<nat> {
    match pc
    case Outside => Some(5)
    case CheckFree => Some(4)
    case CheckFreeCpu(_) => Some(3)
    case Spinning => Some(2)
    case Recording => Some(1)
    case Critical => Some(0)
    case _ => None
  }

  /** A CPU that runs alone gets a lock that is free, or on the way to it, in so many steps. */
  lemma {:induction false} AcquireAlone(s: Spin, o: Option<nat>, c: nat, n: nat)
    requires SpinOk(s, o) && c in s.pcs && ToCritical(s.pcs[c]) == Some(n) && (o == None || o == Some(c))
    ensures var f := SpinRun(s, Alone(c, n));
            f.pcs == s.pcs[c := Critical] && f.locked && f.holder == Some(c)
    decreases n
  {
    assert CpuOk(s, o, c, s.pcs[c], s.irqs[c]);
    if n > 0 {
      SpinStepKeeps(s, o, c);
      AcquireGoes(s, o, c, n);
      AcquireAlone(SpinStep(s, c), NextOwner(s, o, c), c, n - 1);
      assert Alone(c, n)[0] == c && Alone(c, n)[1..] == Alone(c, n - 1);
    }
  }

  lemma AcquireGoes(s: Spin, o: Option<nat>, c: nat, n: nat)
    requires SpinOk(s, o) && c in s.pcs && ToCritical(s.pcs[c]) == Some(n) && n > 0 && (o == None || o == Some(c))
    ensures var t := SpinStep(s, c);
            && t.pcs.Keys == s.pcs.Keys && ToCritical(t.pcs[c]) == Some(n - 1) && t.pcs == s.pcs[c := t.pcs[c]]
            && (NextOwner(s, o, c) == None || NextOwner(s, o, c) == Some(c))
  {
    assert CpuOk(s, o, c, s.pcs[c], s.irqs[c]);
  }

  /** How many steps release still has until the CPU is out again. */
  function ToOutside(pc: SpinPc): Option<nat> {
    match pc
    case Critical => Some(5)
    case CheckHeld => Some(4)
    case CheckHeldCpu(_) => Some(3)
    case Forgetting => Some(2)
    case Unlocking => Some(1)
    case Leaving => Some(0)
    case _ => None
  }

  /** A CPU that runs on from the critical section frees the lock. */
  lemma {:induction false} ReleaseAlone(s: Spin, o: Option<nat>, c: nat, n: nat)
    requires SpinOk(s, o) && c in s.pcs && ToOutside(s.pcs[c]) == Some(n)
    ensures var f := SpinRun(s, Alone(c, n)); f.pcs == s.pcs[c := Leaving] && (n > 0 ==> !f.locked)
    decreases n
  {
    assert CpuOk(s, o, c, s.pcs[c], s.irqs[c]);
    if n > 0 {
      SpinStepKeeps(s, o, c);
      ReleaseGoes(s, o, c, n);
      ReleaseAlone(SpinStep(s, c), NextOwner(s, o, c), c, n - 1);
      assert Alone(c, n)[0] == c && Alone(c, n)[1..] == Alone(c, n - 1);
    }
  }

  lemma ReleaseGoes(s: Spin, o: Option<nat>, c: nat, n: nat)
    requires SpinOk(s, o) && c in s.pcs && ToOutside(s.pcs[c]) == Some(n) && n > 0
    ensures var t := SpinStep(s, c);
            && t.pcs.Keys == s.pcs.Keys && ToOutside(t.pcs[c]) == Some(n - 1) && t.pcs == s.pcs[c := t.pcs[c]]
            && (n == 1 ==> !t.locked)
  {
    assert CpuOk(s, o, c, s.pcs[c], s.irqs[c]);
  }

  // ----- Sleep locks

  /**
   * Where a process is in acquiresleep, releasesleep or holdingsleep; the inner spin lock is a single exchange here.
   */
  datatype SleepPc =
    | Away
    | WantInner | Testing | Taking | Signing | Entering        // acquiresleep
    | Asleep
    | Inside                                                   // holds the sleep lock
    | AskInner | Asking | Answering(yes: bool)                 // holdingsleep, from inside
    | PeekInner | Peeking | Peeked(yes: bool)                  // holdingsleep, from outside
    | BackInner | Dropping | Erasing | Waking | Exiting        // releasesleep

  datatype Sleep = Sleep(inner: Option<nat>, locked: bool, pid: nat, pcs: map<nat, SleepPc>)

  predicate HasInner(pc: SleepPc) {
    || pc.Testing? || pc.Taking? || pc.Signing? || pc.Entering? || pc.Asking? || pc.Answering?
    || pc.Peeking? || pc.Peeked? || pc.Dropping? || pc.Erasing? || pc.Waking? || pc.Exiting?
  }

  /** Between the stores that lock and unlock. */
  predicate OwnsSleep(pc: SleepPc) {
    pc.Signing? || pc.Entering? || pc.Inside? || pc.AskInner? || pc.Asking? || pc.Answering? || pc.BackInner?
      || pc.Dropping?
  }

  /** After a wakeup, whoever slept competes for the inner lock again. */
  function Woken(pcs: map<nat, SleepPc>): (w: map<nat, SleepPc>)
    ensures w.Keys == pcs.Keys && forall p :: p in pcs ==> w[p] == if pcs[p].Asleep? then WantInner else pcs[p]
  {
    map p | p in pcs :: if pcs[p].Asleep? then WantInner else pcs[p]
  }

  /** What a process may do when it is inside or away, by its caller's choice; kill makes one that is asleep run. */
  datatype Wish = Acquire | Release | Ask | Killed

  function SleepStep(s: Sleep, p: nat, wish: Wish): Sleep
    requires p in s.pcs
  {
    var at := (pc: SleepPc) => s.(pcs := s.pcs[p := pc]);
    var take := (pc: SleepPc) => if s.inner.None? then s.(inner := Some(p), pcs := s.pcs[p := pc]) else s;
    var leave := (pc: SleepPc) => s.(inner := None, pcs := s.pcs[p := pc]);
    match s.pcs[p]
    case Away => at(if wish == Acquire then WantInner else if wish == Ask then PeekInner else Away)
    case WantInner => take(Testing)
    case Testing => if s.locked then leave(Asleep) else at(Taking)
    case Taking => s.(locked := true, pcs := s.pcs[p := Signing])
    case Signing => s.(pid := p, pcs := s.pcs[p := Entering])
    case Entering => leave(Inside)
    case Asleep => at(if wish == Killed then WantInner else Asleep)
    case Inside => at(if wish == Release then BackInner else if wish == Ask then AskInner else Inside)
    case AskInner => take(Asking)
    case Asking => at(Answering(s.locked && s.pid == p))
    case Answering(_) => leave(Inside)
    case PeekInner => take(Peeking)
    case Peeking => at(Peeked(s.locked && s.pid == p))
    case Peeked(_) => leave(Away)
    case BackInner => take(Dropping)
    case Dropping => s.(locked := false, pcs := s.pcs[p := Erasing])
    case Erasing => s.(pid := 0, pcs := s.pcs[p := Waking])
    case Waking => s.(pcs := Woken(s.pcs)[p := Exiting])
    case Exiting => leave(Away)
  }

  /** The state is in order, and o is the process between the stores that lock and unlock, if there is one. */
  ghost predicate SleepOk(s: Sleep, o: Option<nat>) {
    && (o.Some? ==> o.value in s.pcs) && (s.locked <==> o.Some?) && (s.inner.Some? ==> s.inner.value in s.pcs)
    && (forall p :: p in s.pcs ==> ProcOk(s, o, p, s.pcs[p]))
    && (s.pid != 0 ==> s.pid in s.pcs)
  }

  ghost predicate ProcOk(s: Sleep, o: Option<nat>, p: nat, pc: SleepPc) {
    HoldsRightly(s, o, p, pc) && SeesRightly(s, pc)
  }

  ghost predicate HoldsRightly(s: Sleep, o: Option<nat>, p: nat, pc: SleepPc) {
    && p > 0 && (HasInner(pc) <==> s.inner == Some(p)) && (OwnsSleep(pc) <==> o == Some(p))
    && (s.pid == p <==> (OwnsSleep(pc) && !pc.Signing?) || pc.Erasing?)
  }

  ghost predicate SeesRightly(s: Sleep, pc: SleepPc) {
    && (pc.Taking? || pc.Erasing? || pc.Waking? ==> !s.locked)
    && (pc.Asleep? ==> s.locked || BeingWoken(s))
    && (pc.Answering? ==> pc.yes) && (pc.Peeked? ==> !pc.yes)
  }

  /** The holder of the inner lock has unlocked and is about to wake the sleepers. */
  predicate BeingWoken(s: Sleep) {
    s.inner.Some? && s.inner.value in s.pcs && (s.pcs[s.inner.value].Erasing? || s.pcs[s.inner.value].Waking?)
  }

  function NextSleepOwner(s: Sleep, o: Option<nat>, p: nat): Option<nat>
    requires p in s.pcs
  {
    if s.pcs[p].Taking? then Some(p) else if s.pcs[p].Dropping? then None else o
  }

  lemma SleepStepKeeps(s: Sleep, o: Option<nat>, p: nat, wish: Wish)
    requires SleepOk(s, o) && p in s.pcs
    ensures SleepOk(SleepStep(s, p, wish), NextSleepOwner(s, o, p))
  {
    var t, o' := SleepStep(s, p, wish), NextSleepOwner(s, o, p);
    forall q | q in t.pcs
      ensures ProcOk(t, o', q, t.pcs[q])
    {
      if q == p {
        SelfKeeps(s, o, p, wish);
      } else {
        OthersKeep(s, o, p, wish, q);
      }
    }
    assert ProcOk(s, o, p, s.pcs[p]);
  }

  lemma SelfKeeps(s: Sleep, o: Option<nat>, p: nat, wish: Wish)
    requires SleepOk(s, o) && p in s.pcs
    ensures var t := SleepStep(s, p, wish); p in t.pcs && ProcOk(t, NextSleepOwner(s, o, p), p, t.pcs[p])
  {
    assert ProcOk(s, o, p, s.pcs[p]);
    SelfHolds(s, o, p, wish);
    SelfSees(s, o, p, wish);
  }

  lemma SelfHolds(s: Sleep, o: Option<nat>, p: nat, wish: Wish)
    requires p in s.pcs && (s.locked <==> o.Some?) && ProcOk(s, o, p, s.pcs[p])
    ensures var t := SleepStep(s, p, wish); p in t.pcs && HoldsRightly(t, NextSleepOwner(s, o, p), p, t.pcs[p])
  {
  }

  lemma SelfSees(s: Sleep, o: Option<nat>, p: nat, wish: Wish)
    requires p in s.pcs && (s.locked <==> o.Some?) && ProcOk(s, o, p, s.pcs[p])
    ensures var t := SleepStep(s, p, wish); p in t.pcs && SeesRightly(t, t.pcs[p])
  {
  }

  lemma OthersKeep(s: Sleep, o: Option<nat>, p: nat, wish: Wish, q: nat)
    requires SleepOk(s, o) && p in s.pcs && q in s.pcs && q != p
    ensures var t := SleepStep(s, p, wish); q in t.pcs && ProcOk(t, NextSleepOwner(s, o, p), q, t.pcs[q])
  {
    assert ProcOk(s, o, p, s.pcs[p]) && ProcOk(s, o, q, s.pcs[q]);
  }

  datatype Move = Move(p: nat, wish: Wish)

  function SleepRun(s: Sleep, moves: seq<Move>): Sleep
    requires forall i :: 0 <= i < |moves| ==> moves[i].p in s.pcs
    decreases |moves|
  {
    if moves == [] then s
    else
      var t := SleepStep(s, moves[0].p, moves[0].wish);
      assert t.pcs.Keys == s.pcs.Keys;
      SleepRun(t, moves[1..])
  }

  ghost predicate SleepInitial(s: Sleep) {
    s.inner == None && !s.locked && s.pid == 0 && forall p :: p in s.pcs ==> p > 0 && s.pcs[p].Away?
  }

  lemma {:induction false} SleepRunKeeps(s: Sleep, o: Option<nat>, moves: seq<Move>) returns (o': Option<nat>)
    requires SleepOk(s, o) && forall i :: 0 <= i < |moves| ==> moves[i].p in s.pcs
    ensures SleepOk(SleepRun(s, moves), o') && SleepRun(s, moves).pcs.Keys == s.pcs.Keys
    decreases |moves|
  {
    if moves == [] {
      o' := o;
    } else {
      SleepStepKeeps(s, o, moves[0].p, moves[0].wish);
      var t := SleepStep(s, moves[0].p, moves[0].wish);
      assert t.pcs.Keys == s.pcs.Keys;
      o' := SleepRunKeeps(t, NextSleepOwner(s, o, moves[0].p), moves[1..]);
    }
  }

  /**
   * Whatever the interleaving: two processes never hold the sleep lock; a process sleeps on it only while it is locked,
   * whenever the inner lock is free; and holdingsleep answers yes from inside and no from outside.
   */
  lemma SleepLockIsSafe(s: Sleep, moves: seq<Move>, p: nat, q: nat)
    requires SleepInitial(s) && (forall i :: 0 <= i < |moves| ==> moves[i].p in s.pcs) && p in s.pcs && q in s.pcs
    ensures var f := SleepRun(s, moves);
            && p in f.pcs && q in f.pcs
            && (f.pcs[p].Inside? && f.pcs[q].Inside? ==> p == q)
            && (f.pcs[p].Inside? ==> f.locked && f.pid == p)
            && (f.pcs[p].Asleep? && f.inner.None? ==> f.locked)
            && (f.pcs[p].Answering? ==> f.pcs[p].yes) && (f.pcs[p].Peeked? ==> !f.pcs[p].yes)
  {
    var o := SleepRunKeeps(s, None, moves);
    var f := SleepRun(s, moves);
    assert ProcOk(f, o, p, f.pcs[p]) && ProcOk(f, o, q, f.pcs[q]);
  }

  // ----- Who runs alone gets the lock

  function AloneAsks(p: nat, wish: Wish, n: nat): (moves: seq<Move>)
    ensures forall i :: 0 <= i < |moves| ==> moves[i] == Move(p, wish)
  {
    if n == 0 then [] else [Move(p, wish)] + AloneAsks(p, wish, n - 1)
  }

  /** How many steps acquiresleep still has until it has the lock. */
  function ToInside(pc: SleepPc): Option<nat> {
    match pc
    case Away => Some(6)
    case WantInner => Some(5)
    case Testing => Some(4)
    case Taking => Some(3)
    case Signing => Some(2)
    case Entering => Some(1)
    case Inside => Some(0)
    case _ => None
  }

  /** Nobody but p has the sleep lock or its inner lock. */
  predicate FreeFor(s: Sleep, o: Option<nat>, p: nat) {
    (o == None || o == Some(p)) && (s.inner == None || s.inner == Some(p))
  }

  /** A process that runs alone gets a sleep lock that is free, or on the way to it, in so many steps. */
  lemma {:induction false} AcquireSleepAlone(s: Sleep, o: Option<nat>, p: nat, n: nat)
    requires SleepOk(s, o) && p in s.pcs && ToInside(s.pcs[p]) == Some(n) && FreeFor(s, o, p)
    ensures var f := SleepRun(s, AloneAsks(p, Acquire, n));
            f.pcs == s.pcs[p := Inside] && f.locked && f.pid == p && f.inner == None
    decreases n
  {
    assert ProcOk(s, o, p, s.pcs[p]);
    if n > 0 {
      SleepStepKeeps(s, o, p, Acquire);
      AcquireSleepGoes(s, o, p, n);
      AcquireSleepAlone(SleepStep(s, p, Acquire), NextSleepOwner(s, o, p), p, n - 1);
      var moves := AloneAsks(p, Acquire, n);
      assert moves[0] == Move(p, Acquire) && moves[1..] == AloneAsks(p, Acquire, n - 1);
    }
  }

  lemma AcquireSleepGoes(s: Sleep, o: Option<nat>, p: nat, n: nat)
    requires SleepOk(s, o) && p in s.pcs && ToInside(s.pcs[p]) == Some(n) && n > 0 && FreeFor(s, o, p)
    ensures var t := SleepStep(s, p, Acquire);
            && t.pcs.Keys == s.pcs.Keys && ToInside(t.pcs[p]) == Some(n - 1) && t.pcs == s.pcs[p := t.pcs[p]]
            && FreeFor(t, NextSleepOwner(s, o, p), p)
  {
    assert ProcOk(s, o, p, s.pcs[p]);
  }

  /** How many steps releasesleep still has until it has woken the sleepers. */
  function ToAwake(pc: SleepPc): Option<nat> {
    match pc
    case Inside => Some(5)
    case BackInner => Some(4)
    case Dropping => Some(3)
    case Erasing => Some(2)
    case Waking => Some(1)
    case Exiting => Some(0)
    case _ => None
  }

  /** A holder that runs on frees the sleep lock, and leaves nobody asleep on it. */
  lemma {:induction false} ReleaseSleepAlone(s: Sleep, o: Option<nat>, p: nat, n: nat)
    requires SleepOk(s, o) && p in s.pcs && ToAwake(s.pcs[p]) == Some(n) && (s.inner == None || s.inner == Some(p))
    ensures var f := SleepRun(s, AloneAsks(p, Release, n));
            p in f.pcs && f.pcs[p].Exiting? && (n > 0 ==> !f.locked && f.pcs == Woken(s.pcs)[p := Exiting])
    decreases n
  {
    assert ProcOk(s, o, p, s.pcs[p]);
    if n > 0 {
      SleepStepKeeps(s, o, p, Release);
      ReleaseSleepGoes(s, o, p, n);
      var t := SleepStep(s, p, Release);
      ReleaseSleepAlone(t, NextSleepOwner(s, o, p), p, n - 1);
      var moves := AloneAsks(p, Release, n);
      assert moves[0] == Move(p, Release) && moves[1..] == AloneAsks(p, Release, n - 1);
      assert n > 1 ==> Woken(t.pcs)[p := Exiting] == Woken(s.pcs)[p := Exiting];
    }
  }

  lemma ReleaseSleepGoes(s: Sleep, o: Option<nat>, p: nat, n: nat)
    requires SleepOk(s, o) && p in s.pcs && ToAwake(s.pcs[p]) == Some(n) && n > 0
    requires s.inner == None || s.inner == Some(p)
    ensures var t := SleepStep(s, p, Release);
            && t.pcs.Keys == s.pcs.Keys && ToAwake(t.pcs[p]) == Some(n - 1) && (t.inner == None || t.inner == Some(p))
            && (if n == 1 then !t.locked && t.pcs == Woken(s.pcs)[p := Exiting] else t.pcs == s.pcs[p := t.pcs[p]])
  {
    assert ProcOk(s, o, p, s.pcs[p]);
  }
}
