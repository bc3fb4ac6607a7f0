/** pipe.c: a ring buffer with wrapping counters, and the sleep and wakeup protocol of its readers and writers. */
module Pipes {
  import opened Basics
  import opened Bytes

  const PIPESIZE: nat := 512

  /** What has gone into the pipe and come out of it, and which ends are open. */
  datatype Chan = Chan(sent: seq<byte>, got: seq<byte>, readopen: bool, writeopen: bool) {
    ghost predicate Ok() {
      |got| <= |sent| <= |got| + PIPESIZE && got == sent[..|got|]
    }
    predicate Full() {
      |sent| == |got| + PIPESIZE
    }
    predicate Empty() {
      |sent| == |got|
    }
  }

  /** How a stretch of pipewrite or piperead under the lock ends. */
  datatype End = Sleeps(i: nat) | Returns(value: int)

  /** What such a stretch does: the pipe after it, its end, and whether it wakes the other side up. */
  datatype Stretch = Stretch(chan: Chan, end: End, wakes: bool)

  /** pipewrite from index i on, until it sleeps or returns. */
  function WriteStretch(c: Chan, src: seq<byte>, i: nat, killed: bool): Stretch
    requires i <= |src| && |c.sent| <= |c.got| + PIPESIZE
  {
    var next := i + Min(|src| - i, |c.got| + PIPESIZE - |c.sent|);
    var c' := c.(sent := c.sent + src[i..next]);
    if next == |src| then Stretch(c', Returns(|src|), true)
    else if !c.readopen || killed then Stretch(c', Returns(-1), false)
    else Stretch(c', Sleeps(next), true)
  }

  /** Where the loop of pipewrite has come to an end. */
  lemma StretchAt(c: Chan, src: seq<byte>, start: nat, i: nat, killed: bool)
    requires start <= i <= |src| && |c.sent| + i - start <= |c.got| + PIPESIZE
    ensures var c' := c.(sent := c.sent + src[start..i]);
      if i == |src| then WriteStretch(c, src, start, killed) == Stretch(c', Returns(|src|), true)
      else |c.sent| + i - start == |c.got| + PIPESIZE ==>
        WriteStretch(c, src, start, killed) ==
        if !c.readopen || killed then Stretch(c', Returns(-1), false) else Stretch(c', Sleeps(i), true)
  {
  }

  /** piperead, until it sleeps or returns. */
  function ReadStretch(c: Chan, n: nat, killed: bool): Stretch
    requires |c.got| <= |c.sent|
  {
    if c.Empty() && c.writeopen then
      if killed then Stretch(c, Returns(-1), false) else Stretch(c, Sleeps(0), false)
    else
      var m := Min(n, |c.sent| - |c.got|);
      Stretch(c.(got := c.sent[..|c.got| + m]), Returns(m), true)
  }

  /**
   * What piperead answers that has got so many bytes: that number, or -1 if it was killed while it had to wait. It
   * waits on an empty pipe that can still be written to, and answers 0 just at the end of the stream, or if it was
   * asked for nothing.
   */
  predicate ReadAnswer(c: Chan, n: nat, killed: bool, end: End, count: nat)
    requires |c.got| <= |c.sent|
  {
    && (end == Sleeps(0) <==> c.Empty() && c.writeopen && !killed)
    && (end == Returns(-1) <==> c.Empty() && c.writeopen && killed)
    && (end == Sleeps(0) || end == Returns(-1) || (end == Returns(count) && count == Min(n, |c.sent| - |c.got|)))
    && (end == Returns(0) <==> if c.Empty() then !c.writeopen else n == 0)
  }

  lemma ReadAnswers(c: Chan, n: nat, killed: bool, r: Stretch, count: nat)
    requires |c.got| <= |c.sent| && r == ReadStretch(c, n, killed) && |r.chan.got| == |c.got| + count
    ensures ReadAnswer(c, n, killed, r.end, count)
  {
  }

  // ----- The ring buffer

  /** Position k of the stream is in slot k % PIPESIZE, whatever the 32-bit counters have wrapped to. */
  lemma SlotOfWrapped(k: nat)
    ensures k % WORD_LIMIT % PIPESIZE == k % PIPESIZE
  {
    assert k == WORD_LIMIT * (k / WORD_LIMIT) + k % WORD_LIMIT;
    assert k == PIPESIZE * (8388608 * (k / WORD_LIMIT)) + k % WORD_LIMIT;
    ModOfSum(8388608 * (k / WORD_LIMIT), k % WORD_LIMIT);
  }

  lemma ModOfSum(q: nat, r: nat)
    ensures (PIPESIZE * q + r) % PIPESIZE == r % PIPESIZE
  {
    assert PIPESIZE * q + r == PIPESIZE * (q + r / PIPESIZE) + r % PIPESIZE;
  }

  /** The tests on the counters tell full from empty, although both differ by a multiple of PIPESIZE. */
  lemma CountersTell(r: nat, w: nat)
    requires r <= w <= r + PIPESIZE
    ensures w % WORD_LIMIT == (r % WORD_LIMIT + PIPESIZE) % WORD_LIMIT <==> w == r + PIPESIZE
    ensures r % WORD_LIMIT == w % WORD_LIMIT <==> w == r
  {
    var q, rest := r / WORD_LIMIT, r % WORD_LIMIT;
    if rest + (w - r) < WORD_LIMIT {
      WrapIs(q, rest + (w - r), w);
    } else {
      WrapIs(q + 1, rest + (w - r) - WORD_LIMIT, w);
    }
    if rest + PIPESIZE < WORD_LIMIT {
      WrapIs(0, rest + PIPESIZE, rest + PIPESIZE);
    } else {
      WrapIs(1, rest + PIPESIZE - WORD_LIMIT, rest + PIPESIZE);
    }
  }

  lemma WrapIs(q: nat, rest: nat, x: nat)
    requires rest < WORD_LIMIT && x == q * WORD_LIMIT + rest
    ensures x % WORD_LIMIT == rest
  {
  }

  lemma NextCounter(k: nat)
    ensures (k + 1) % WORD_LIMIT == (k % WORD_LIMIT + 1) % WORD_LIMIT
  {
    var q, rest := k / WORD_LIMIT, k % WORD_LIMIT;
    if rest + 1 < WORD_LIMIT {
      WrapIs(q, rest + 1, k + 1);
    } else {
      WrapIs(q + 1, 0, k + 1);
    }
  }

  /** Two positions less than PIPESIZE apart use different slots. */
  lemma SlotsDiffer(j: nat, k: nat)
    requires j < k < j + PIPESIZE
    ensures j % PIPESIZE != k % PIPESIZE
  {
    assert k - j == PIPESIZE * (k / PIPESIZE - j / PIPESIZE) + (k % PIPESIZE - j % PIPESIZE);
  }

  class Pipe {
    const data: array<byte>
    var nread: nat
    var nwrite: nat
    var readopen: bool
    var writeopen: bool
    ghost var sent: seq<byte>
    ghost var got: seq<byte>

    ghost function Abs(): Chan
      reads this
    {
      Chan(sent, got, readopen, writeopen)
    }

    /** The buffer holds what has been sent and not yet got. */
    ghost predicate Valid()
      reads this, data
    {
      && data.Length == PIPESIZE && Abs().Ok()
      && nread == |got| % WORD_LIMIT && nwrite == |sent| % WORD_LIMIT
      && forall k :: |got| <= k < |sent| ==> data[k % PIPESIZE] == sent[k]
    }

    constructor ()
      ensures Valid() && fresh(data) && Abs() == Chan([], [], true, true)
    {
      data := new byte[PIPESIZE];
      nread, nwrite, readopen, writeopen := 0, 0, true, true;
      sent, got := [], [];
    }

    /** Appends one byte to the buffer, which is not full. */
    method Put(b: byte)
      requires Valid() && !Abs().Full()
      modifies this`nwrite, this`sent, data
      ensures Valid() && sent == old(sent) + [b]
    {
      ghost var k := |sent|;
      SlotOfWrapped(k);
      NextCounter(k);
      forall j | |got| <= j < k ensures j % PIPESIZE != k % PIPESIZE {
        SlotsDiffer(j, k);
      }
      data[nwrite % PIPESIZE] := b;
      nwrite := (nwrite + 1) % WORD_LIMIT;
      sent := sent + [b];
    }

    /** Takes the next byte from the buffer, which is not empty. */
    method Get() returns (b: byte)
      requires Valid() && !Abs().Empty()
      modifies this`nread, this`got
      ensures Valid() && b == sent[|old(got)|] && got == sent[..|old(got)| + 1]
    {
      SlotOfWrapped(|got|);
      NextCounter(|got|);
      b := data[nread % PIPESIZE];
      nread := (nread + 1) % WORD_LIMIT;
      got := got + [b];
    }

    /** pipewrite from index start on, with the lock held. */
    method Write(addr: seq<byte>, start: nat, killed: bool) returns (end: End, wakes: bool)
      requires Valid() && start <= |addr|
      modifies this`nwrite, this`sent, data
      ensures Valid() && Stretch(Abs(), end, wakes) == WriteStretch(old(Abs()), addr, start, killed)
      ensures old(sent) <= sent && sent[|old(sent)|..] <= addr[start..]
      ensures match end
        case Sleeps(i) => Abs().Full() && i < |addr| && sent == old(sent) + addr[start..i] && wakes
        case Returns(v) => if v == |addr| then sent == old(sent) + addr[start..] && wakes
                           else v == -1 && Abs().Full() && (killed || !readopen) && !wakes
    {
      var i := start;
      ghost var c := Abs();
      while i < |addr|
        invariant start <= i <= |addr| && Valid() && sent == old(sent) + addr[start..i]
      {
        CountersTell(|got|, |sent|);
        StretchAt(c, addr, start, i, killed);
        if nwrite == (nread + PIPESIZE) % WORD_LIMIT {
          if !readopen || killed {
            return Returns(-1), false;
          }
          return Sleeps(i), true;
        }
        assert addr[start..i + 1] == addr[start..i] + [addr[i]];
        Put(addr[i]);
        i := i + 1;
      }
      StretchAt(c, addr, start, i, killed);
      return Returns(|addr|), true;
    }

    /** piperead, with the lock held. */
    method Read(n: nat, killed: bool) returns (end: End, wakes: bool, addr: seq<byte>)
      requires Valid()
      modifies this`nread, this`got
      ensures Valid() && Stretch(Abs(), end, wakes) == ReadStretch(old(Abs()), n, killed)
      ensures got == old(got) + addr && ReadAnswer(old(Abs()), n, killed, end, |addr|)
    {
      addr := [];
      ghost var c := Abs();
      CountersTell(|got|, |sent|);
      if nread == nwrite && writeopen {
        end, wakes := if killed then Returns(-1) else Sleeps(0), false;
        ReadAnswers(c, n, killed, Stretch(Abs(), end, wakes), 0);
        return;
      }
      var i := 0;
      while i < n
        invariant i <= n && i == |addr| && Valid() && |old(got)| + i <= |sent|
        invariant got == sent[..|old(got)| + i] == old(got) + addr
      {
        CountersTell(|got|, |sent|);
        if nread == nwrite {
          break;
        }
        var b := Get();
        addr := addr + [b];
        i := i + 1;
      }
      end, wakes := Returns(i), true;
      ReadAnswers(c, n, killed, Stretch(Abs(), end, wakes), i);
    }

    /** Closes one end; last tells whether the page is to be freed. */
    method Close(writable: bool) returns (last: bool)
      requires Valid()
      modifies this`readopen, this`writeopen
      ensures Valid()
      ensures Abs() == if writable then old(Abs()).(writeopen := false) else old(Abs()).(readopen := false)
      ensures last <==> !readopen && !writeopen
    {
      if writable {
        writeopen := false;
      } else {
        readopen := false;
      }
      last := !readopen && !writeopen;
    }
  }

  // ----- The protocol

  /** What a process is doing: it runs a stretch when it next gets the lock, or it sleeps. */
  datatype Proc =
    | Idle
    | AtWrite(src: seq<byte>, i: nat)
    | AsleepWriting(src: seq<byte>, i: nat)
    | AtRead(n: nat)
    | AsleepReading(n: nat)
  {
    predicate Writer() {
      AtWrite? || AsleepWriting?
    }
    predicate Reader() {
      AtRead? || AsleepReading?
    }
  }

  /** The pipe, the processes, and how often its page has been freed. */
  datatype World = World(chan: Chan, procs: map<nat, Proc>, frees: nat)

  /** After a wakeup on nread, sleeping readers may go on. */
  function ReadersWoken(procs: map<nat, Proc>): (w: map<nat, Proc>)
    ensures w.Keys == procs.Keys
    ensures forall p :: p in procs ==> w[p] == if procs[p].AsleepReading? then AtRead(procs[p].n) else procs[p]
  {
    map p | p in procs :: if procs[p].AsleepReading? then AtRead(procs[p].n) else procs[p]
  }

  /** After a wakeup on nwrite, sleeping writers may go on. */
  function WritersWoken(procs: map<nat, Proc>): (w: map<nat, Proc>)
    ensures w.Keys == procs.Keys
    ensures forall p :: p in procs ==>
      w[p] == if procs[p].AsleepWriting? then AtWrite(procs[p].src, procs[p].i) else procs[p]
  {
    map p | p in procs :: if procs[p].AsleepWriting? then AtWrite(procs[p].src, procs[p].i) else procs[p]
  }

  function Awake(x: Proc): Proc {
    match x
    case AsleepWriting(src, i) => AtWrite(src, i)
    case AsleepReading(n) => AtRead(n)
    case _ => x
  }

  datatype Event =
    | StartWrite(src: seq<byte>)
    | StartRead(n: nat)
    | RunWrite(killed: bool)
    | RunRead(killed: bool)
    | Wake                          // kill makes a sleeping process runnable
    | Close(writable: bool)

  /** A process can call a pipe function only through an open file, and an end is closed by its last file. */
  predicate Enabled(w: World, p: nat, e: Event) {
    && p in w.procs
    && match e
       case StartWrite(_) => w.procs[p].Idle? && w.chan.writeopen
       case StartRead(_) => w.procs[p].Idle? && w.chan.readopen
       case RunWrite(_) => w.procs[p].AtWrite?
       case RunRead(_) => w.procs[p].AtRead?
       case Wake => w.procs[p].AsleepWriting? || w.procs[p].AsleepReading?
       case Close(writable) => NoneInside(w, writable) && if writable then w.chan.writeopen else w.chan.readopen
  }

  predicate NoneInside(w: World, writable: bool) {
    forall q :: q in w.procs ==> !(if writable then w.procs[q].Writer() else w.procs[q].Reader())
  }

  ghost predicate WorldOk(w: World) {
    && w.chan.Ok()
    && forall p :: p in w.procs ==>
         && (w.procs[p].Writer() ==> w.chan.writeopen && w.procs[p].i <= |w.procs[p].src|)
         && (w.procs[p].Reader() ==> w.chan.readopen)
  }

  function After(w: World, p: nat, e: Event): World
    requires WorldOk(w) && Enabled(w, p, e)
  {
    match e
    case StartWrite(src) => w.(procs := w.procs[p := AtWrite(src, 0)])
    case StartRead(n) => w.(procs := w.procs[p := AtRead(n)])
    case RunWrite(killed) =>
      var src := w.procs[p].src;
      var s := WriteStretch(w.chan, src, w.procs[p].i, killed);
      var procs := if s.wakes then ReadersWoken(w.procs) else w.procs;
      w.(chan := s.chan, procs := procs[p := if s.end.Sleeps? then AsleepWriting(src, s.end.i) else Idle])
    case RunRead(killed) =>
      var n := w.procs[p].n;
      var s := ReadStretch(w.chan, n, killed);
      var procs := if s.wakes then WritersWoken(w.procs) else w.procs;
      w.(chan := s.chan, procs := procs[p := if s.end.Sleeps? then AsleepReading(n) else Idle])
    case Wake => w.(procs := w.procs[p := Awake(w.procs[p])])
    case Close(writable) =>
      var c := if writable then w.chan.(writeopen := false) else w.chan.(readopen := false);
      World(c, if writable then ReadersWoken(w.procs) else WritersWoken(w.procs),
            if c.readopen || c.writeopen then w.frees else w.frees + 1)
  }

  /** A writer sleeps only when the pipe is full and there is a read end. */
  ghost predicate WritersJustified(w: World) {
    forall p :: p in w.procs && w.procs[p].AsleepWriting? ==> w.chan.Full() && w.chan.readopen
  }

  /** A reader sleeps only when the pipe is empty and there is a write end. */
  ghost predicate ReadersJustified(w: World) {
    forall p :: p in w.procs && w.procs[p].AsleepReading? ==> w.chan.Empty() && w.chan.writeopen
  }

  /** The page is freed when both ends are closed, once, and nobody is inside then. */
  ghost predicate FreedOnce(w: World) {
    w.frees == if w.chan.readopen || w.chan.writeopen then 0 else 1
  }

  /** Every step keeps the stream and the writers' half of the protocol. */
  lemma StepKeeps(w: World, p: nat, e: Event)
    requires WorldOk(w) && WritersJustified(w) && FreedOnce(w) && Enabled(w, p, e)
    ensures WorldOk(After(w, p, e)) && WritersJustified(After(w, p, e)) && FreedOnce(After(w, p, e))
    ensures w.chan.sent <= After(w, p, e).chan.sent && w.chan.got <= After(w, p, e).chan.got
  {
    match e
    case RunWrite(_) => WriteKeeps(w, p, e);
    case RunRead(_) => ReadKeeps(w, p, e);
    case Close(_) =>
    case _ =>
  }

  lemma WriteKeeps(w: World, p: nat, e: Event)
    requires WorldOk(w) && WritersJustified(w) && Enabled(w, p, e) && e.RunWrite?
    ensures WorldOk(After(w, p, e)) && WritersJustified(After(w, p, e)) && w.chan.sent <= After(w, p, e).chan.sent
  {
  }

  lemma ReadKeeps(w: World, p: nat, e: Event)
    requires WorldOk(w) && WritersJustified(w) && Enabled(w, p, e) && e.RunRead?
    ensures WorldOk(After(w, p, e)) && WritersJustified(After(w, p, e)) && w.chan.got <= After(w, p, e).chan.got
  {
  }

  /** The step that loses a wakeup: a killed writer that has filled the pipe returns without waking the readers. */
  predicate Abandons(w: World, p: nat, e: Event)
    requires WorldOk(w) && Enabled(w, p, e)
  {
    && e == RunWrite(true) && w.chan.readopen
    && |w.procs[p].src| - w.procs[p].i > |w.chan.got| + PIPESIZE - |w.chan.sent|
  }

  ghost predicate SomeReaderAsleep(w: World) {
    exists q :: q in w.procs && w.procs[q].AsleepReading?
  }

  /** The readers' half is kept by a step exactly if it is not such a return past a sleeping reader. */
  lemma ReadersHalf(w: World, p: nat, e: Event)
    requires WorldOk(w) && WritersJustified(w) && ReadersJustified(w) && Enabled(w, p, e)
    ensures ReadersJustified(After(w, p, e)) <==> !(Abandons(w, p, e) && SomeReaderAsleep(w))
  {
    if Abandons(w, p, e) && SomeReaderAsleep(w) {
      var q :| q in w.procs && w.procs[q].AsleepReading?;
      assert q != p && After(w, p, e).procs[q] == w.procs[q];
      assert !After(w, p, e).chan.Empty();
    }
  }

  // ----- Runs

  datatype Step = Step(p: nat, e: Event)

  /** A run from w: every step is enabled; sane says that no writer takes the killed return. */
  ghost predicate Run(w: World, steps: seq<Step>, sane: bool)
    decreases |steps|
  {
    WorldOk(w) && (steps != [] ==>
      && Enabled(w, steps[0].p, steps[0].e) && (sane ==> !Abandons(w, steps[0].p, steps[0].e))
      && Run(After(w, steps[0].p, steps[0].e), steps[1..], sane))
  }

  function Final(w: World, steps: seq<Step>): World
    requires Run(w, steps, false)
    decreases |steps|
  {
    if steps == [] then w else Final(After(w, steps[0].p, steps[0].e), steps[1..])
  }

  ghost predicate Initial(w: World) {
    w.chan == Chan([], [], true, true) && w.frees == 0 && forall p :: p in w.procs ==> w.procs[p].Idle?
  }

  lemma {:induction false} RunKeeps(w: World, steps: seq<Step>)
    requires Run(w, steps, false) && WritersJustified(w) && FreedOnce(w)
    ensures WorldOk(Final(w, steps)) && WritersJustified(Final(w, steps)) && FreedOnce(Final(w, steps))
    decreases |steps|
  {
    if steps != [] {
      StepKeeps(w, steps[0].p, steps[0].e);
      RunKeeps(After(w, steps[0].p, steps[0].e), steps[1..]);
    }
  }

  /**
   * In every run: what was read, followed by what is buffered, is what was written;
   * at most PIPESIZE bytes are buffered; sleeping writers have a reason; and the
   * page is freed at most once, when both ends are closed and nobody is inside.
   */
  lemma EveryRun(w: World, steps: seq<Step>)
    requires Initial(w) && Run(w, steps, false)
    ensures var f := Final(w, steps);
            && f.chan.Ok() && f.chan.sent == f.chan.got + f.chan.sent[|f.chan.got|..]
            && |f.chan.sent[|f.chan.got|..]| <= PIPESIZE
            && WritersJustified(f) && f.frees <= 1
            && (f.frees == 1 ==> forall p :: p in f.procs ==> f.procs[p].Idle?)
  {
    RunKeeps(w, steps);
    var f := Final(w, steps);
    assert f.chan.Ok();
    if f.frees == 1 {
      forall p | p in f.procs ensures f.procs[p].Idle? {
        assert !f.procs[p].Writer() && !f.procs[p].Reader();
      }
    }
  }

  lemma {:induction false} SaneRunsWake(w: World, steps: seq<Step>)
    requires Run(w, steps, true) && WritersJustified(w) && ReadersJustified(w) && FreedOnce(w)
    ensures Run(w, steps, false) && ReadersJustified(Final(w, steps))
    decreases |steps|
  {
    if steps != [] {
      var next := After(w, steps[0].p, steps[0].e);
      StepKeeps(w, steps[0].p, steps[0].e);
      ReadersHalf(w, steps[0].p, steps[0].e);
      SaneRunsWake(next, steps[1..]);
    }
  }

  /** A run that does lose a wakeup: a reader asleep on a pipe that a killed writer leaves full. */
  lemma LostWakeup(w: World, r: nat, q: nat, src: seq<byte>) returns (steps: seq<Step>)
    requires Initial(w) && r in w.procs && q in w.procs && r != q && |src| > PIPESIZE
    ensures Run(w, steps, false)
    ensures var f := Final(w, steps); SomeReaderAsleep(f) && f.chan.Full()
  {
    var s0, s1, s2, s3 := Step(r, StartRead(1)), Step(r, RunRead(false)), Step(q, StartWrite(src)),
      Step(q, RunWrite(true));
    var w1 := After(w, r, s0.e);
    var w2 := After(w1, r, s1.e);
    ReaderSleeps(w1, r, 1);
    var w3 := After(w2, q, s2.e);
    var w4 := After(w3, q, s3.e);
    KilledWriterFills(w3, q, src);
    assert w4.procs[r].AsleepReading?;
    steps := RunOne(w3, s3, [], w4, w4);
    steps := RunOne(w2, s2, steps, w3, w4);
    steps := RunOne(w1, s1, steps, w2, w4);
    steps := RunOne(w, s0, steps, w1, w4);
  }

  lemma ReaderSleeps(w: World, p: nat, n: nat)
    requires WorldOk(w) && p in w.procs && w.procs[p] == AtRead(n) && w.chan.Empty() && w.chan.writeopen
    ensures After(w, p, RunRead(false)) == w.(procs := w.procs[p := AsleepReading(n)])
  {
  }

  /** One step in front of a run. */
  lemma RunOne(w: World, s: Step, rest: seq<Step>, next: World, f: World) returns (steps: seq<Step>)
    requires WorldOk(w) && Enabled(w, s.p, s.e) && next == After(w, s.p, s.e)
    requires Run(next, rest, false) && Final(next, rest) == f
    ensures Run(w, steps, false) && Final(w, steps) == f
  {
    steps := [s] + rest;
    assert steps[1..] == rest;
  }

  lemma KilledWriterFills(w: World, p: nat, src: seq<byte>)
    requires WorldOk(w) && p in w.procs && w.procs[p] == AtWrite(src, 0) && w.chan.Empty() && |src| > PIPESIZE
    ensures var g := After(w, p, RunWrite(true));
            && g.chan.Full() && g.procs == w.procs[p := Idle] && WorldOk(g)
  {
  }
}
