/** The polling booth of Assignment4/q2.c: robots carry voters to machines with a bounded number of slots. */
module Booth {
  import opened Basics
  import opened Outcomes

  /** Where a robot is. It tests the number of unassigned voters without the lock, and takes the lock after that. */
  datatype Robot =
    | Testing
    | Fetching
    | Waiting(voter: int)
    | Voting(voter: int, evm: nat)
    | Stopped

  /**
   * Where a machine is: at the test of its own loop, at the two reads of its assert, at the test for a free slot, or
   * offering itself in polling_ready_evm. Only the last takes the lock. Failed is a failed assert.
   */
  datatype Machine = Idle | CheckLow | CheckHigh | Deciding | Offering | Off | Failed

  /** The shared fields, the threads, and what has been handed out and cast so far. */
  datatype Hall = Hall(
    voters: nat,                    // initial number of voters
    slots: map<nat, nat>,
    unassigned: int,
    toCast: int,
    free: Option<nat>,
    occupied: map<nat, int>,
    robots: map<nat, Robot>,
    evms: map<nat, Machine>,
    handed: seq<nat>,               // the robots that fetched a voter number, in order
    cast: seq<int>)                 // the voter numbers cast, in order

  // ----- The critical sections

  /** What one passage through a critical section does to the shared fields. */
  datatype Desk = Desk(unassigned: int, toCast: int, free: Option<nat>, occupied: map<nat, int>)

  function Fetch(d: Desk): (Desk, int) {
    (d.(unassigned := d.unassigned - 1), d.unassigned)
  }

  /** voter_wait_for_evm, one passage: the machine taken, or None. */
  function TakeSlot(d: Desk, slots: map<nat, nat>): (Desk, Option<nat>)
    requires d.free.Some? ==> d.free.value in d.occupied && d.free.value in slots
  {
    if d.free.None? then (d, None)
    else
      var e := d.free.value;
      var n := d.occupied[e] + 1;
      (d.(occupied := d.occupied[e := n], free := if n == slots[e] then None else d.free), d.free)
  }

  function LeaveSlot(d: Desk, e: nat): Desk
    requires e in d.occupied
  {
    d.(occupied := d.occupied[e := d.occupied[e] - 1], toCast := d.toCast - 1)
  }

  /** polling_ready_evm, one passage: whether the machine is done offering. */
  function Offer(d: Desk, slots: map<nat, nat>, e: nat): (Desk, bool)
    requires e in d.occupied && e in slots
  {
    if d.occupied[e] == slots[e] then (d, true)
    else if d.free.None? then (d.(free := Some(e)), true)
    else (d, false)
  }

  /** Every machine has at most as many voters as slots, and the machine on offer has room. */
  predicate DeskOk(d: Desk, slots: map<nat, nat>) {
    && d.occupied.Keys == slots.Keys && (forall e :: e in slots ==> 0 <= d.occupied[e] <= slots[e])
    && (d.free.Some? ==> d.free.value in slots && d.occupied[d.free.value] < slots[d.free.value])
  }

  /** A voter who takes a slot and leaves it again leaves the machines as they were. */
  lemma TakeThenLeave(d: Desk, slots: map<nat, nat>)
    requires DeskOk(d, slots) && d.free.Some?
    ensures var (d', evm) := TakeSlot(d, slots);
            && evm == d.free && DeskOk(d', slots) && d'.occupied[evm.value] > 0
            && LeaveSlot(d', evm.value).occupied == d.occupied && DeskOk(LeaveSlot(d', evm.value), slots)
  {
    var (d', evm) := TakeSlot(d, slots);
    assert LeaveSlot(d', evm.value).occupied == d.occupied;
  }

  class VotingBooth {
    const slots: map<nat, nat>
    var unassigned: int
    var toCast: int
    var free: Option<nat>
    var occupied: map<nat, int>

    ghost function Abs(): Desk
      reads this
    {
      Desk(unassigned, toCast, free, occupied)
    }

    ghost predicate Valid()
      reads this
    {
      DeskOk(Abs(), slots)
    }

    constructor (slots: map<nat, nat>, voters: nat)
      ensures Valid() && this.slots == slots && Abs() == Desk(voters, voters, None, map e | e in slots :: 0)
    {
      this.slots := slots;
      unassigned, toCast, free := voters, voters, None;
      occupied := map e | e in slots :: 0;
    }

    /** The locked part of booth_get_voter. */
    method GetVoter() returns (voterID: int)
      requires Valid()
      modifies this`unassigned
      ensures Valid() && (Abs(), voterID) == Fetch(old(Abs()))
    {
      voterID := unassigned;
      unassigned := unassigned - 1;
    }

    /** One round of voter_wait_for_evm: the machine on offer, if there is one, has room, which both asserts say. */
    method TryTakeSlot() returns (evm: Option<nat>)
      requires Valid()
      modifies this`occupied, this`free
      ensures Valid() && (Abs(), evm) == TakeSlot(old(Abs()), slots)
    {
      evm := free;
      if evm.Some? {
        assert occupied[evm.value] >= 0;
        assert occupied[evm.value] < slots[evm.value];
        occupied := occupied[evm.value := occupied[evm.value] + 1];
        if occupied[evm.value] == slots[evm.value] {
          free := None;
        }
      }
    }

    method InSlot(evm: nat)
      requires Valid() && evm in slots && occupied[evm] > 0
      modifies this`occupied, this`toCast
      ensures Valid() && Abs() == LeaveSlot(old(Abs()), evm)
    {
      occupied := occupied[evm := occupied[evm] - 1];
      toCast := toCast - 1;
    }

    /** One round of polling_ready_evm. */
    method TryOffer(evm: nat) returns (done: bool)
      requires Valid() && evm in slots
      modifies this`free
      ensures Valid() && (Abs(), done) == Offer(old(Abs()), slots, evm)
    {
      if occupied[evm] == slots[evm] {
        return true;
      }
      if free == None {
        free := Some(evm);
        return true;
      }
      return false;
    }
  }

  // ----- Steps

  function DeskOf(h: Hall): Desk {
    Desk(h.unassigned, h.toCast, h.free, h.occupied)
  }

  function WithDesk(h: Hall, d: Desk): Hall {
    h.(unassigned := d.unassigned, toCast := d.toCast, free := d.free, occupied := d.occupied)
  }

  /** The next step of robot r. */
  function RobotStep(h: Hall, r: nat): Hall
    requires Sane(h) && r in h.robots
  {
    match h.robots[r]
    case Testing => h.(robots := h.robots[r := if h.unassigned == 0 then Stopped else Fetching])
    case Fetching =>
      var (d, id) := Fetch(DeskOf(h));
      WithDesk(h, d).(robots := h.robots[r := if id <= -1 then Stopped else Waiting(id)], handed := h.handed + [r])
    case Waiting(id) =>
      var (d, e) := TakeSlot(DeskOf(h), h.slots);
      WithDesk(h, d).(robots := h.robots[r := if e.None? then Waiting(id) else Voting(id, e.value)])
    case Voting(id, e) => WithDesk(h, LeaveSlot(DeskOf(h), e)).(robots := h.robots[r := Testing], cast := h.cast + [id])
    case Stopped => h
  }

  /** The next step of machine e. */
  function MachineStep(h: Hall, e: nat): Hall
    requires Sane(h) && e in h.evms
  {
    match h.evms[e]
    case Idle => h.(evms := h.evms[e := if h.toCast > 0 then CheckLow else Off])
    case CheckLow => h.(evms := h.evms[e := if h.occupied[e] >= 0 then CheckHigh else Failed])
    case CheckHigh => h.(evms := h.evms[e := if h.occupied[e] <= h.slots[e] then Deciding else Failed])
    case Deciding => h.(evms := h.evms[e := if h.occupied[e] < h.slots[e] then Offering else Idle])
    case Offering =>
      var (d, done) := Offer(DeskOf(h), h.slots, e);
      WithDesk(h, d).(evms := h.evms[e := if done then Idle else Offering])
    case Off => h
    case Failed => h
  }

  predicate Sane(h: Hall) {
    && h.evms.Keys == h.slots.Keys == h.occupied.Keys
    && (h.free.Some? ==> h.free.value in h.slots)
    && (forall r :: r in h.robots && h.robots[r].Voting? ==> h.robots[r].evm in h.slots)
  }

  // ----- What always holds

  /** The robots in a slot of machine e. */
  ghost function Holders(robots: map<nat, Robot>, e: nat): set<nat> {
    set r | r in robots && Holds(robots, r, e)
  }

  /** The robots that carry voter id. */
  predicate Carries(x: Robot, id: int) {
    (x.Waiting? || x.Voting?) && x.voter == id
  }

  /** Occupancy is the number of robots in the slots; a machine that is offered has room; and no assert has failed. */
  ghost predicate SlotsOk(h: Hall) {
    && Sane(h) && (forall e :: e in h.evms ==> !h.evms[e].Failed?)
    && (forall e :: e in h.slots ==> SlotOk(h, e))
    && (h.free.Some? ==> h.occupied[h.free.value] < h.slots[h.free.value])
  }

  /**
   * The k-th fetch got voter number voters - k; each number from 0 on
   * is cast or carried by the robot that fetched it.
   */
  ghost predicate VotersOk(h: Hall) {
    && h.unassigned == h.voters - |h.handed| && h.toCast == h.voters - |h.cast|
    && (forall r :: r in h.robots ==> RobotOk(h, r, h.robots[r]))
    && (forall k :: 0 <= k < |h.cast| ==> h.unassigned < h.cast[k] <= h.voters && h.cast[k] >= 0)
    && (forall j, k :: 0 <= j < k < |h.cast| ==> h.cast[j] != h.cast[k])
    && (forall k :: 0 <= k < |h.handed| && k <= h.voters ==> Accounted(h, k))
  }

  ghost predicate RobotOk(h: Hall, r: nat, x: Robot) {
    && (x.Waiting? || x.Voting? ==>
          0 <= x.voter <= h.voters && h.voters - x.voter < |h.handed| && h.handed[h.voters - x.voter] == r
            && x.voter !in h.cast)
    && (x.Stopped? ==> h.unassigned <= 0)
  }

  ghost predicate Accounted(h: Hall, k: nat)
    requires k < |h.handed|
  {
    h.voters - k in h.cast || (h.handed[k] in h.robots && Carries(h.robots[h.handed[k]], h.voters - k))
  }

  predicate Holds(robots: map<nat, Robot>, r: nat, e: nat) {
    r in robots && robots[r].Voting? && robots[r].evm == e
  }

  lemma OneMore(others: set<nat>, all: set<nat>, r: nat, member: bool)
    requires r !in others && forall q :: q in all <==> q in others || (q == r && member)
    ensures |all| == |others| + if member then 1 else 0
  {
    if member {
      assert all == others + {r};
    } else {
      assert all == others;
    }
  }

  lemma HoldersMove(robots: map<nat, Robot>, next: map<nat, Robot>, r: nat, e: nat)
    requires r in robots && next.Keys == robots.Keys && forall q :: q in robots && q != r ==> next[q] == robots[q]
    ensures |Holders(next, e)| + (if Holds(robots, r, e) then 1 else 0) == |Holders(robots, e)| + if Holds(next, r, e)
      then 1 else 0
  {
    var others := Holders(robots, e) - {r};
    OneMore(others, Holders(robots, e), r, Holds(robots, r, e));
    OneMore(others, Holders(next, e), r, Holds(next, r, e));
  }

  /** The occupancy of one machine. */
  ghost predicate SlotOk(h: Hall, e: nat)
    requires e in h.slots && e in h.occupied
  {
    h.slots[e] >= 1 && h.occupied[e] == |Holders(h.robots, e)| <= h.slots[e]
  }

  lemma RobotKeepsSane(h: Hall, r: nat)
    requires Sane(h) && r in h.robots
    ensures var g := RobotStep(h, r);
            && Sane(g) && g.slots == h.slots && g.robots.Keys == h.robots.Keys
            && forall q :: q in h.robots && q != r ==> g.robots[q] == h.robots[q]
  {
  }

  lemma RobotKeepsSlot(h: Hall, r: nat, e: nat)
    requires Sane(h) && r in h.robots && e in h.slots && SlotOk(h, e)
    requires h.free == Some(e) ==> h.occupied[e] < h.slots[e]
    ensures e in RobotStep(h, r).occupied && RobotStep(h, r).slots == h.slots && SlotOk(RobotStep(h, r), e)
  {
    var g := RobotStep(h, r);
    RobotKeepsSane(h, r);
    HoldersMove(h.robots, g.robots, r, e);
  }

  lemma RobotKeepsSlots(h: Hall, r: nat)
    requires SlotsOk(h) && r in h.robots
    ensures SlotsOk(RobotStep(h, r))
  {
    var g := RobotStep(h, r);
    RobotKeepsSane(h, r);
    forall e | e in g.slots
      ensures SlotOk(g, e)
    {
      assert SlotOk(h, e);
      RobotKeepsSlot(h, r, e);
    }
    RobotKeepsRoom(h, r);
  }

  lemma RobotKeepsRoom(h: Hall, r: nat)
    requires SlotsOk(h) && r in h.robots
    ensures var g := RobotStep(h, r);
            Sane(g) && g.slots == h.slots && (g.free.Some? ==> g.occupied[g.free.value] < g.slots[g.free.value])
  {
    RobotKeepsSane(h, r);
    assert h.free.Some? ==> SlotOk(h, h.free.value);
  }

  lemma RobotKeepsVoters(h: Hall, r: nat)
    requires Sane(h) && VotersOk(h) && r in h.robots
    ensures VotersOk(RobotStep(h, r))
  {
    var g := RobotStep(h, r);
    assert RobotOk(h, r, h.robots[r]);
    forall q | q in g.robots
      ensures RobotOk(g, q, g.robots[q])
    {
      if q == r {
        SelfOk(h, r);
      } else {
        OtherOk(h, r, q);
      }
    }
    CastOk(h, r);
    forall k: nat | k < |g.handed| && k <= g.voters
      ensures Accounted(g, k)
    {
      StillAccounted(h, r, k);
    }
  }

  lemma SelfOk(h: Hall, r: nat)
    requires Sane(h) && VotersOk(h) && r in h.robots
    ensures var g := RobotStep(h, r);
            r in g.robots && RobotOk(g, r, g.robots[r])
  {
    assert RobotOk(h, r, h.robots[r]);
  }

  lemma OtherOk(h: Hall, r: nat, q: nat)
    requires Sane(h) && VotersOk(h) && r in h.robots && q in h.robots && q != r
    ensures var g := RobotStep(h, r);
            q in g.robots && RobotOk(g, q, g.robots[q])
  {
    assert RobotOk(h, r, h.robots[r]);
    assert RobotOk(h, q, h.robots[q]);
  }

  lemma CastOk(h: Hall, r: nat)
    requires Sane(h) && VotersOk(h) && r in h.robots
    ensures var g := RobotStep(h, r);
            && g.unassigned == g.voters - |g.handed| && g.toCast == g.voters - |g.cast|
            && (forall k :: 0 <= k < |g.cast| ==> g.unassigned < g.cast[k] <= g.voters && g.cast[k] >= 0)
            && (forall j, k :: 0 <= j < k < |g.cast| ==> g.cast[j] != g.cast[k])
  {
    assert RobotOk(h, r, h.robots[r]);
  }

  lemma StillAccounted(h: Hall, r: nat, k: nat)
    requires Sane(h) && VotersOk(h) && r in h.robots && k < |RobotStep(h, r).handed| && k <= h.voters
    ensures Accounted(RobotStep(h, r), k)
  {
    var g := RobotStep(h, r);
    if k < |h.handed| {
      assert Accounted(h, k);
      if h.voters - k in h.cast {
        assert h.voters - k in g.cast;
      } else if h.handed[k] == r && h.robots[r].Voting? {
        assert g.cast[|h.cast|] == h.voters - k;
      }
    }
  }

  lemma MachineKeepsSlots(h: Hall, e: nat)
    requires SlotsOk(h) && e in h.evms
    ensures SlotsOk(MachineStep(h, e))
  {
    var g := MachineStep(h, e);
    assert g.robots == h.robots && g.occupied == h.occupied && g.slots == h.slots;
    assert SlotOk(h, e);
    forall d | d in g.slots ensures SlotOk(g, d) { assert SlotOk(h, d); }
  }

  lemma MachineKeepsVoters(h: Hall, e: nat)
    requires Sane(h) && VotersOk(h) && e in h.evms
    ensures VotersOk(MachineStep(h, e))
  {
    var g := MachineStep(h, e);
    assert g.robots == h.robots && g.cast == h.cast && g.handed == h.handed;
    forall q | q in g.robots ensures RobotOk(g, q, g.robots[q]) { assert RobotOk(h, q, h.robots[q]); }
    forall k: nat | k < |g.handed| && k <= g.voters ensures Accounted(g, k) { assert Accounted(h, k); }
  }

  // ----- Runs

  datatype Turn = OfRobot(r: nat) | OfMachine(e: nat)

  predicate IsTurn(h: Hall, t: Turn) {
    if t.OfRobot? then t.r in h.robots else t.e in h.evms
  }

  /** One turn; a turn of nobody is skipped. */
  function Turned(h: Hall, t: Turn): Hall {
    if !Sane(h) || !IsTurn(h, t) then h else if t.OfRobot? then RobotStep(h, t.r) else MachineStep(h, t.e)
  }

  function Run(h: Hall, turns: seq<Turn>): Hall
    decreases |turns|
  {
    if turns == [] then h else Run(Turned(h, turns[0]), turns[1..])
  }

  ghost predicate Opening(h: Hall) {
    && Sane(h) && h.free == None && h.handed == [] && h.cast == [] && h.unassigned == h.toCast == h.voters
    && (forall e :: e in h.slots ==> h.slots[e] >= 1 && h.occupied[e] == 0)
    && (forall r :: r in h.robots ==> h.robots[r] == Testing) && (forall e :: e in h.evms ==> h.evms[e] == Idle)
  }

  lemma OpeningOk(h: Hall)
    requires Opening(h)
    ensures SlotsOk(h) && VotersOk(h)
  {
    forall e | e in h.slots
      ensures Holders(h.robots, e) == {}
    {
    }
  }

  lemma TurnKeeps(h: Hall, t: Turn)
    requires SlotsOk(h) && VotersOk(h)
    ensures SlotsOk(Turned(h, t)) && VotersOk(Turned(h, t)) && Turned(h, t).voters == h.voters
  {
    if IsTurn(h, t) {
      if t.OfRobot? {
        RobotKeepsSlots(h, t.r);
        RobotKeepsVoters(h, t.r);
      } else {
        MachineKeepsSlots(h, t.e);
        MachineKeepsVoters(h, t.e);
      }
    }
  }

  lemma {:induction false} RunKeeps(h: Hall, turns: seq<Turn>)
    requires SlotsOk(h) && VotersOk(h)
    ensures SlotsOk(Run(h, turns)) && VotersOk(Run(h, turns)) && Run(h, turns).voters == h.voters
    decreases |turns|
  {
    if turns != [] {
      TurnKeeps(h, turns[0]);
      RunKeeps(Turned(h, turns[0]), turns[1..]);
    }
  }

  ghost function Range(lo: int, hi: int): (s: set<int>)
    ensures forall x :: x in s <==> lo <= x <= hi
    decreases hi + 1 - lo
  {
    if lo > hi then {} else {lo} + Range(lo + 1, hi)
  }

  lemma {:induction false} RangeSize(lo: int, hi: int)
    requires lo <= hi + 1
    ensures |Range(lo, hi)| == hi + 1 - lo
    decreases hi + 1 - lo
  {
    if lo <= hi {
      RangeSize(lo + 1, hi);
    }
  }

  ghost function Elems(s: seq<int>): set<int> {
    set k | 0 <= k < |s| :: s[k]
  }

  lemma {:induction false} DistinctSize(s: seq<int>)
    requires forall j, k :: 0 <= j < k < |s| ==> s[j] != s[k]
    ensures |Elems(s)| == |s|
  {
    if s == [] {
      assert Elems(s) == {};
    } else {
      var t := s[..|s| - 1];
      DistinctSize(t);
      assert Elems(s) == Elems(t) + {s[|s| - 1]};
      assert s[|s| - 1] !in Elems(t);
    }
  }

  /** Voter id has been fetched once; it has voted, or the robot that fetched it, and no other, carries it. */
  ghost predicate GivenOnce(h: Hall, id: int) {
    && 0 <= h.voters - id < |h.handed|
    && var r := h.handed[h.voters - id];
       if id in h.cast then forall q :: q in h.robots ==> !Carries(h.robots[q], id)
       else forall q :: q in h.robots ==> (Carries(h.robots[q], id) <==> q == r)
  }

  lemma FetchedIsGivenOnce(h: Hall, id: int)
    requires VotersOk(h) && 0 <= id <= h.voters && h.unassigned < id
    ensures GivenOnce(h, id)
  {
    assert Accounted(h, h.voters - id);
    forall q | q in h.robots && Carries(h.robots[q], id)
      ensures id !in h.cast && q == h.handed[h.voters - id]
    {
      assert RobotOk(h, q, h.robots[q]);
    }
  }

  /**
   * In every run: no machine is over its slots, the machine on offer has room, at most
   * one vote more than there are voters is cast, and none twice. Once a robot has
   * stopped, every voter from 1 on has been given to exactly one robot or has voted.
   */
  lemma EveryRun(h: Hall, turns: seq<Turn>)
    requires Opening(h)
    ensures var g := Run(h, turns);
            && SlotsOk(g) && g.voters == h.voters && |g.cast| <= g.voters + 1
            && (forall j, k :: 0 <= j < k < |g.cast| ==> g.cast[j] != g.cast[k])
            && ((exists r :: r in g.robots && g.robots[r].Stopped?) ==>
                  forall id :: 1 <= id <= g.voters ==> GivenOnce(g, id))
  {
    OpeningOk(h);
    RunKeeps(h, turns);
    var g := Run(h, turns);
    DistinctSize(g.cast);
    RangeSize(0, g.voters);
    SubsetSize(Elems(g.cast), Range(0, g.voters));
    if r :| r in g.robots && g.robots[r].Stopped? {
      assert RobotOk(g, r, g.robots[r]);
      forall id | 1 <= id <= g.voters ensures GivenOnce(g, id) {
        FetchedIsGivenOnce(g, id);
      }
    }
  }

  /** Turn t hands out voter number 0: a robot that has passed the test comes to the lock when no voter is left. */
  predicate HandsOutZero(h: Hall, t: Turn) {
    t.OfRobot? && t.r in h.robots && h.robots[t.r].Fetching? && h.unassigned == 0
  }

  /** That is the only kind of turn after which somebody carries number 0 that did not before. */
  lemma ZeroExactlyWhen(h: Hall, t: Turn)
    requires SlotsOk(h) && VotersOk(h) && IsTurn(h, t)
    ensures (exists r ::
      r in Turned(h, t).robots && Carries(Turned(h, t).robots[r], 0) && !(r in h.robots && Carries(h.robots[r], 0)))
              <==> HandsOutZero(h, t)
  {
    var g := Turned(h, t);
    if t.OfRobot? {
      RobotKeepsSane(h, t.r);
      if HandsOutZero(h, t) {
        assert t.r in g.robots && Carries(g.robots[t.r], 0) && !Carries(h.robots[t.r], 0);
      }
    }
  }

  /** Some turn of the run hands out number 0. */
  predicate ZeroHandedOut(h: Hall, turns: seq<Turn>)
    decreases |turns|
  {
    turns != [] && (HandsOutZero(h, turns[0]) || ZeroHandedOut(Turned(h, turns[0]), turns[1..]))
  }

  lemma UnassignedAfter(h: Hall, t: Turn)
    requires SlotsOk(h)
    ensures var g := Turned(h, t);
            && (h.unassigned >= 0 ==> (g.unassigned < 0 <==> HandsOutZero(h, t))) && g.unassigned <= h.unassigned
            && (HandsOutZero(h, t) ==> h.unassigned == 0)
  {
  }

  lemma {:induction false} OnceNegative(h: Hall, turns: seq<Turn>)
    requires SlotsOk(h) && VotersOk(h)
    ensures h.unassigned >= 0 ==> (Run(h, turns).unassigned < 0 <==> ZeroHandedOut(h, turns))
    ensures h.unassigned < 0 ==> Run(h, turns).unassigned < 0 && !ZeroHandedOut(h, turns)
    decreases |turns|
  {
    if turns != [] {
      UnassignedAfter(h, turns[0]);
      TurnKeeps(h, turns[0]);
      OnceNegative(Turned(h, turns[0]), turns[1..]);
    }
  }

  /** When all robots have stopped: one vote too many exactly if some turn handed out number 0. */
  lemma WhenAllStopped(h: Hall, turns: seq<Turn>)
    requires Opening(h)
    requires (exists r :: r in Run(h, turns).robots) && forall r :: r in Run(h, turns).robots ==>
      Run(h, turns).robots[r].Stopped?
    ensures var g := Run(h, turns);
            && g.voters == h.voters && |g.cast| == g.voters + (if ZeroHandedOut(h, turns) then 1 else 0)
            && (forall id :: 1 <= id <= g.voters ==> id in g.cast) && (0 in g.cast <==> ZeroHandedOut(h, turns))
  {
    OpeningOk(h);
    RunKeeps(h, turns);
    OnceNegative(h, turns);
    AllVoted(Run(h, turns));
  }

  // ----- A run with one vote too many

  lemma {:induction false} RunMore(h: Hall, turns: seq<Turn>, t: Turn)
    ensures Run(h, turns + [t]) == Turned(Run(h, turns), t)
    decreases |turns|
  {
    if turns == [] {
      var one := turns + [t];
      assert one[0] == t && one[1..] == [];
    } else {
      assert (turns + [t])[1..] == turns[1..] + [t];
      RunMore(Turned(h, turns[0]), turns[1..], t);
    }
  }

  lemma TestTurn(h: Hall, r: nat)
    requires Sane(h) && r in h.robots && h.robots[r].Testing? && h.unassigned != 0
    ensures Turned(h, OfRobot(r)) == h.(robots := h.robots[r := Fetching])
  {
  }

  lemma FetchTurn(h: Hall, r: nat)
    requires Sane(h) && r in h.robots && h.robots[r].Fetching? && h.unassigned >= 0
    ensures Turned(h, OfRobot(r))
              == h.(unassigned := h.unassigned - 1, robots := h.robots[r := Waiting(h.unassigned)],
                handed := h.handed + [r])
  {
  }

  lemma TakeTurn(h: Hall, r: nat, e: nat)
    requires Sane(h) && r in h.robots && h.robots[r].Waiting? && h.free == Some(e)
    ensures var n := h.occupied[e] + 1;
            Turned(h, OfRobot(r)) == h.(occupied := h.occupied[e := n], free := if n == h.slots[e] then None
              else Some(e),
                                        robots := h.robots[r := Voting(h.robots[r].voter, e)])
  {
  }

  lemma VoteTurn(h: Hall, r: nat)
    requires Sane(h) && r in h.robots && h.robots[r].Voting?
    ensures var e := h.robots[r].evm;
            Turned(h, OfRobot(r)) == h.(occupied := h.occupied[e := h.occupied[e] - 1], toCast := h.toCast - 1,
                                        robots := h.robots[r := Testing], cast := h.cast + [h.robots[r].voter])
  {
  }

  /** Where machine e goes next in its own loop, while votes are to be cast and it has room. */
  function AfterRead(m: Machine): Machine {
    match m
    case Idle => CheckLow
    case CheckLow => CheckHigh
    case CheckHigh => Deciding
    case _ => Offering
  }

  lemma LoopTurn(h: Hall, e: nat, m: Machine)
    requires SlotsOk(h) && e in h.evms && h.toCast > 0 && h.occupied[e] < h.slots[e] && h.evms[e] == m
      && m in {Idle, CheckLow, CheckHigh, Deciding}
    ensures Turned(h, OfMachine(e)) == h.(evms := h.evms[e := AfterRead(m)])
  {
    assert SlotOk(h, e);
  }

  lemma OfferTurn(h: Hall, e: nat)
    requires Sane(h) && e in h.evms && h.free.None? && h.occupied[e] < h.slots[e] && h.evms[e].Offering?
    ensures Turned(h, OfMachine(e)) == h.(free := Some(e), evms := h.evms[e := Idle])
  {
  }

  /** g is where the given turns lead from h. */
  ghost predicate Reached(h: Hall, turns: seq<Turn>, g: Hall) {
    SlotsOk(h) && VotersOk(h) && g == Run(h, turns) && SlotsOk(g)
  }

  lemma Next(h: Hall, turns: seq<Turn>, g: Hall, t: Turn) returns (turns': seq<Turn>, g': Hall)
    requires Reached(h, turns, g)
    ensures Reached(h, turns', g') && g' == Turned(g, t)
  {
    RunMore(h, turns, t);
    turns', g' := turns + [t], Turned(g, t);
    RunKeeps(h, turns');
  }

  /** Machine e is at m in its own loop, there are votes to be cast, and it has room. */
  ghost predicate Loops(g: Hall, e: nat, m: Machine) {
    && e in g.evms && e in g.occupied && e in g.slots && g.evms[e] == m
    && g.toCast > 0 && g.occupied[e] < g.slots[e]
  }

  function WithMachine(g: Hall, e: nat, m: Machine): Hall {
    g.(evms := g.evms[e := m])
  }

  lemma WithMachineTwice(g: Hall, e: nat, m: Machine, m': Machine)
    ensures WithMachine(WithMachine(g, e, m), e, m') == WithMachine(g, e, m')
  {
    SetTwice(g.evms, e, m, m');
  }

  lemma LoopMore(h: Hall, turns: seq<Turn>, g: Hall, e: nat, m: Machine, m': Machine)
    returns (turns': seq<Turn>, g': Hall)
    requires Reached(h, turns, g) && Loops(g, e, m) && m in {Idle, CheckLow, CheckHigh, Deciding} && m' == AfterRead(m)
    ensures Reached(h, turns', g') && Loops(g', e, m') && g' == WithMachine(g, e, m')
  {
    LoopTurn(g, e, m);
    turns', g' := Next(h, turns, g, OfMachine(e));
  }

  /** Machine e comes round to offering itself: it reads that votes are to be cast and that it has room. */
  lemma {:induction false} ComesRound(h: Hall, turns: seq<Turn>, g: Hall, e: nat, m: Machine)
    returns (turns': seq<Turn>, g': Hall)
    requires Reached(h, turns, g) && Loops(g, e, m) && m in {Idle, CheckLow, CheckHigh, Deciding}
    ensures Reached(h, turns', g') && g' == WithMachine(g, e, Offering)
    decreases if m == Idle then 3 else if m == CheckLow then 2 else if m == CheckHigh then 1 else 0
  {
    var m' := AfterRead(m);
    turns', g' := LoopMore(h, turns, g, e, m, m');
    if m != Deciding {
      turns', g' := ComesRound(h, turns', g', e, m');
      WithMachineTwice(g, e, m', Offering);
    }
  }

  /** Robot r passes the test and fetches the next number. */
  lemma GetsNumber(h: Hall, turns: seq<Turn>, g: Hall, r: nat) returns (turns': seq<Turn>, g': Hall)
    requires Reached(h, turns, g) && r in g.robots && g.robots[r].Testing? && g.unassigned > 0
    ensures Reached(h, turns', g')
    ensures g' == g.(unassigned := g.unassigned - 1, robots := g.robots[r := Waiting(g.unassigned)],
      handed := g'.handed)
  {
    TestTurn(g, r);
    turns', g' := Next(h, turns, g, OfRobot(r));
    FetchTurn(g', r);
    turns', g' := Next(h, turns', g', OfRobot(r));
    assert g'.robots == g.robots[r := Waiting(g.unassigned)];
  }

  /** Both robots pass the test before either takes the lock. */
  lemma BothFetch(h: Hall, turns: seq<Turn>, g: Hall, a: nat, b: nat) returns (turns': seq<Turn>, g': Hall)
    requires Reached(h, turns, g) && a in g.robots && b in g.robots && a != b && g.unassigned == 1
    requires g.robots[a].Testing? && g.robots[b].Testing?
    ensures Reached(h, turns', g')
    ensures g' == g.(unassigned := -1, robots := g.robots[a := Waiting(1)][b := Waiting(0)], handed := g'.handed)
  {
    TestTurn(g, a);
    turns', g' := Next(h, turns, g, OfRobot(a));
    TestTurn(g', b);
    turns', g' := Next(h, turns', g', OfRobot(b));
    FetchTurn(g', a);
    turns', g' := Next(h, turns', g', OfRobot(a));
    FetchTurn(g', b);
    turns', g' := Next(h, turns', g', OfRobot(b));
    assert g'.robots == g.robots[a := Waiting(1)][b := Waiting(0)];
  }

  /** Robot r, which carries voter id, takes the only slot that is in use and votes. */
  lemma TakesAndVotes(h: Hall, turns: seq<Turn>, g: Hall, r: nat, id: int, e: nat)
    returns (turns': seq<Turn>, g': Hall)
    requires Reached(h, turns, g) && r in g.robots && g.robots[r] == Waiting(id) && g.free == Some(e)
    requires g.occupied[e] == 0
    ensures Reached(h, turns', g') && g' == g.(free := g'.free, toCast := g.toCast - 1,
      robots := g.robots[r := Testing], cast := g.cast + [id])
    ensures g'.free == None || g'.free == Some(e)
  {
    TakeTurn(g, r, e);
    turns', g' := Next(h, turns, g, OfRobot(r));
    VoteTurn(g', r);
    turns', g' := Next(h, turns', g', OfRobot(r));
    SetTwice(g.robots, r, Voting(id, e), Testing);
    SetTwice(g.occupied, e, 1, 0);
    assert g.occupied[e := 0] == g.occupied;
  }

  lemma SetTwice<K, V>(m: map<K, V>, k: K, x: V, y: V)
    ensures m[k := x][k := y] == m[k := y]
  {
  }

  /** Machine e, which has decided to offer itself, does so unless it is on offer already. */
  lemma Offers(h: Hall, turns: seq<Turn>, g: Hall, e: nat) returns (turns': seq<Turn>, g': Hall)
    requires Reached(h, turns, g) && e in g.evms && g.evms[e].Offering? && g.occupied[e] < g.slots[e]
    requires g.free == None || g.free == Some(e)
    ensures Reached(h, turns', g') && g' == g.(free := Some(e), evms := g'.evms) && e in g'.evms
    ensures g'.evms[e] == if g.free.None? then Idle else Offering
  {
    turns', g' := turns, g;
    if g.free.None? {
      OfferTurn(g, e);
      turns', g' := Next(h, turns, g, OfMachine(e));
    }
  }

  /** k voters are left, machine e is on offer and has room, and has read once more that it has. */
  ghost predicate AtOffer(g: Hall, a: nat, b: nat, e: nat, k: nat) {
    && a in g.robots && b in g.robots && a != b && g.robots[a].Testing? && g.robots[b].Testing?
    && e in g.evms && e in g.occupied && e in g.slots && g.evms[e].Offering? && g.free == Some(e)
    && g.occupied[e] == 0 < g.slots[e] && g.unassigned == g.toCast == k
  }

  /** Back to that state, from where the machine is on offer or about to be. */
  lemma OffersAgain(h: Hall, turns: seq<Turn>, g: Hall, e: nat) returns (turns': seq<Turn>, g': Hall)
    requires Reached(h, turns, g) && e in g.evms && g.evms[e].Offering? && g.occupied[e] < g.slots[e]
    requires (g.free == None || g.free == Some(e)) && g.toCast > 0
    ensures Reached(h, turns', g') && g' == g.(free := Some(e), evms := g'.evms) && e in g'.evms && g'.evms[e].Offering?
  {
    turns', g' := Offers(h, turns, g, e);
    if g'.evms[e].Idle? {
      turns', g' := ComesRound(h, turns', g', e, Idle);
    }
  }

  /** While other voters are left, robot a lets the next one vote. */
  lemma OneVotes(h: Hall, turns: seq<Turn>, g: Hall, a: nat, b: nat, e: nat, k: nat)
    returns (turns': seq<Turn>, g': Hall)
    requires Reached(h, turns, g) && AtOffer(g, a, b, e, k) && k >= 2
    ensures Reached(h, turns', g') && AtOffer(g', a, b, e, k - 1) && g'.cast == g.cast + [k]
  {
    turns', g' := GetsNumber(h, turns, g, a);
    turns', g' := TakesAndVotes(h, turns', g', a, k, e);
    turns', g' := OffersAgain(h, turns', g', e);
  }

  /** The last voter: both robots fetch, and each of them votes. */
  lemma BothVote(h: Hall, turns: seq<Turn>, g: Hall, a: nat, b: nat, e: nat) returns (turns': seq<Turn>, g': Hall)
    requires Reached(h, turns, g) && AtOffer(g, a, b, e, 1)
    ensures Reached(h, turns', g') && g'.cast == g.cast + [1] + [0]
  {
    turns', g' := BothFetch(h, turns, g, a, b);
    turns', g' := TakesAndVotes(h, turns', g', a, 1, e);
    turns', g' := Offers(h, turns', g', e);
    turns', g' := TakesAndVotes(h, turns', g', b, 0, e);
  }

  /** hi, hi - 1, ..., lo */
  function Countdown(hi: int, lo: int): seq<int>
    decreases hi - lo
  {
    if hi < lo then [] else Countdown(hi, lo + 1) + [lo]
  }

  lemma {:induction false} AllVoteAndOneMore(h: Hall, turns: seq<Turn>, g: Hall, a: nat, b: nat, e: nat, k: nat)
    returns (turns': seq<Turn>)
    requires Reached(h, turns, g) && AtOffer(g, a, b, e, k) && 1 <= k <= h.voters
    requires g.cast == Countdown(h.voters, k + 1)
    ensures Run(h, turns').cast == Countdown(h.voters, 0)
    decreases k
  {
    if k == 1 {
      var g';
      turns', g' := BothVote(h, turns, g, a, b, e);
    } else {
      var more, g' := OneVotes(h, turns, g, a, b, e, k);
      turns' := AllVoteAndOneMore(h, more, g', a, b, e, k - 1);
    }
  }

  /**
   * With any number of voters, two robots and a machine with a slot there is a run that casts one vote more than there
   * are voters, the last for number 0.
   */
  lemma OneVoteTooMany(h: Hall, a: nat, b: nat, e: nat) returns (turns: seq<Turn>)
    requires Opening(h) && h.voters >= 1 && a in h.robots && b in h.robots && a != b && e in h.slots && h.slots[e] >= 1
    ensures Run(h, turns).cast == Countdown(h.voters, 0) && |Run(h, turns).cast| == h.voters + 1
  {
    OpeningOk(h);
    var g;
    turns, g := ComesRound(h, [], h, e, Idle);
    turns, g := OffersAgain(h, turns, g, e);
    turns := AllVoteAndOneMore(h, turns, g, a, b, e, h.voters);
    CountdownSize(h.voters, 0);
  }

  lemma {:induction false} CountdownSize(hi: int, lo: int)
    requires lo <= hi + 1
    ensures |Countdown(hi, lo)| == hi - lo + 1
    decreases hi - lo
  {
    if lo <= hi {
      CountdownSize(hi, lo + 1);
    }
  }

  /** A booth as main starts it: machines of one slot. */
  ghost function Program(voters: nat, evms: set<nat>, robots: set<nat>): Hall {
    Hall(voters, map e | e in evms :: 1, voters, voters, None, map e | e in evms :: 0, map r | r in robots :: Testing,
      map e | e in evms :: Idle, [], [])
  }

  /** main's own booth, of 100 voters, 100 machines and 100 robots, is one of those. */
  lemma MainCanGoWrong() returns (turns: seq<Turn>)
    ensures |Run(Program(100, Interval(0, 100), Interval(0, 100)), turns).cast| == 101
  {
    IntervalSize(0, 100);
    turns := OneVoteTooMany(Program(100, Interval(0, 100), Interval(0, 100)), 0, 1, 0);
  }

  // ----- With the test inside the lock

  ghost predicate NoneFetching(h: Hall) {
    h.unassigned >= 0 && forall q :: q in h.robots ==> !h.robots[q].Fetching?
  }

  /** One turn, with the robot's test and its fetch in one step, as they would be under the lock. */
  function AtomicTurned(h: Hall, t: Turn): Hall {
    var g := Turned(h, t);
    if t.OfRobot? && t.r in g.robots && g.robots[t.r].Fetching? then Turned(g, t) else g
  }

  function AtomicRun(h: Hall, turns: seq<Turn>): Hall
    decreases |turns|
  {
    if turns == [] then h else AtomicRun(AtomicTurned(h, turns[0]), turns[1..])
  }

  lemma AtomicTurnKeeps(h: Hall, t: Turn)
    requires SlotsOk(h) && VotersOk(h) && NoneFetching(h)
    ensures var g := AtomicTurned(h, t); SlotsOk(g) && VotersOk(g) && NoneFetching(g) && g.voters == h.voters
  {
    TurnKeeps(h, t);
    TurnKeeps(Turned(h, t), t);
    if t.OfRobot? && t.r in h.robots {
      RobotKeepsSane(h, t.r);
      AtomicRobot(h, t.r);
    }
  }

  /** The robot that has passed the test is the only one that is fetching, and there is a voter for it. */
  lemma AtomicRobot(h: Hall, r: nat)
    requires SlotsOk(h) && NoneFetching(h) && r in h.robots && SlotsOk(RobotStep(h, r))
    ensures var mid := RobotStep(h, r);
            r in mid.robots && NoneFetching(if mid.robots[r].Fetching? then RobotStep(mid, r) else mid)
  {
    var mid := RobotStep(h, r);
    RobotKeepsSane(h, r);
    if mid.robots[r].Fetching? {
      TestPassed(h, r);
      RobotKeepsSane(mid, r);
      FetchDone(mid, r);
    } else {
      NotFetching(h, r);
    }
  }

  lemma TestPassed(h: Hall, r: nat)
    requires SlotsOk(h) && r in h.robots && !h.robots[r].Fetching?
    ensures var g := RobotStep(h, r);
            r in g.robots && (g.robots[r].Fetching? ==> h.unassigned != 0 && g.unassigned == h.unassigned)
  {
  }

  lemma NotFetching(h: Hall, r: nat)
    requires SlotsOk(h) && r in h.robots && !h.robots[r].Fetching?
    ensures RobotStep(h, r).unassigned == h.unassigned
  {
  }

  lemma FetchDone(h: Hall, r: nat)
    requires SlotsOk(h) && r in h.robots && h.robots[r].Fetching?
    ensures var g := RobotStep(h, r);
            r in g.robots && !g.robots[r].Fetching? && g.unassigned == h.unassigned - 1
  {
  }

  lemma {:induction false} AtomicRunKeeps(h: Hall, turns: seq<Turn>)
    requires SlotsOk(h) && VotersOk(h) && NoneFetching(h)
    ensures VotersOk(AtomicRun(h, turns)) && NoneFetching(AtomicRun(h, turns)) && AtomicRun(h, turns).voters == h.voters
    decreases |turns|
  {
    if turns != [] {
      var t := turns[0];
      AtomicTurnKeeps(h, t);
      AtomicRunKeeps(AtomicTurned(h, t), turns[1..]);
    }
  }

  /**
   * Then voter number 0 is never handed out, and when every robot has stopped each voter has voted, and nobody else.
   */
  lemma AtomicTestIsEnough(h: Hall, turns: seq<Turn>)
    requires Opening(h)
    ensures var g := AtomicRun(h, turns);
            && g.voters == h.voters && |g.cast| <= g.voters && 0 !in g.cast
            && ((exists r :: r in g.robots) && (forall r :: r in g.robots ==> g.robots[r].Stopped?) ==>
                  |g.cast| == g.voters && forall id :: id in g.cast <==> 1 <= id <= g.voters)
  {
    OpeningOk(h);
    AtomicRunKeeps(h, turns);
    var g := AtomicRun(h, turns);
    DistinctSize(g.cast);
    RangeSize(1, g.voters);
    SubsetSize(Elems(g.cast), Range(1, g.voters));
    if (exists r :: r in g.robots) && (forall r :: r in g.robots ==> g.robots[r].Stopped?) {
      AllVoted(g);
    }
  }

  lemma AllVoted(g: Hall)
    requires VotersOk(g) && (exists r :: r in g.robots) && forall r :: r in g.robots ==> g.robots[r].Stopped?
    ensures var lo := if g.unassigned < 0 then 0 else 1;
            |g.cast| == g.voters + 1 - lo && forall id :: id in g.cast <==> lo <= id <= g.voters
  {
    var r :| r in g.robots;
    assert RobotOk(g, r, g.robots[r]);
    var lo := if g.unassigned < 0 then 0 else 1;
    forall id ensures id in g.cast <==> lo <= id <= g.voters {
      if lo <= id <= g.voters {
        FetchedIsGivenOnce(g, id);
        assert Accounted(g, g.voters - id);
      }
    }
    CountedOnce(g.cast, lo, g.voters);
  }

  /** A sequence without repetitions that holds just the numbers lo..hi has as many elements. */
  lemma CountedOnce(s: seq<int>, lo: int, hi: int)
    requires lo <= hi + 1 && (forall id :: id in s <==> lo <= id <= hi) && forall j, k :: 0 <= j < k < |s| ==>
      s[j] != s[k]
    ensures |s| == hi + 1 - lo
  {
    DistinctSize(s);
    RangeSize(lo, hi);
    forall id ensures id in Elems(s) <==> id in Range(lo, hi) {
      assert id in Elems(s) <==> id in s;
    }
    assert Elems(s) == Range(lo, hi);
  }
}
