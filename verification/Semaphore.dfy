/** pthread/rthread_sem.c: the counting semaphore over the hardware-abstraction semaphore of
    pthread/phal.h, which is a lock with a wait set.

    A step machine over any number of threads.  The fields of struct __sem are touched only
    with the lock held, except for the test in sem_destroy; going to sleep releases the lock,
    waking up takes it again.  `value` is an int, but sem_init stores any unsigned count in it;
    `Units` reads its 32-bit pattern as the count. */
module Semaphore {
  import opened Bits
  import opened Counting
  import opened Options
  import opened Runs

  /** What _sem_wait returns: 0 or an errno value. */
  datatype Rc = OK | EAGAIN | EINTR | ETIMEDOUT

  /** Where a thread is. */
  datatype Pc =
    | Out
      // _sem_wait
    | WaitEntry(tryonly: bool)   // line 64, waiting for the lock
    | Test(tryonly: bool)        // lines 65-69
    | Enlist                     // line 71
    | Sleep                      // line 73, about to sleep
    | Sleeping                   // in the wait set, lock released
    | Signalled                  // chosen by a signal, has to take the lock again; r will be 0
    | Woken(r: Rc)               // woken by anything else
    | Awake(r: Rc)               // lines 78-81
    | Leave(r: Rc)               // line 82
    | Take(r: Rc)                // lines 83-84
    | WaitExit(r: Rc)            // line 86
      // _sem_post
    | PostEntry                  // line 100
    | Add                        // line 101
    | Notify                     // lines 102-103
    | PostExit                   // line 107

  /** posts and takes count the increments and decrements of value, succeeded the calls of
      _sem_wait that returned 0, wraps the overflows of value. */
  datatype State = State(value: i32, waitcount: i32, lock: Option<nat>, pcs: seq<Pc>,
                         initial: nat, posts: nat, takes: nat, succeeded: nat, wraps: nat)

  datatype Event =
    | CallWait(t: nat, tryonly: bool)
    | CallPost(t: nat)
    | Lock(t: nat)                      // take the lock: line 64, 100 or waking up in line 73
    | Line(t: nat)                      // the thread's next line, with the lock held
    | Judge(t: nat, cancelled: bool)    // lines 78-81; cancelled: *delayed_cancel is set
    | Signal(t: nat, chosen: nat)       // lines 102-103; chosen: the sleeper picked, if any
    | Wake(t: nat, r: Rc)               // a sleeper wakes without a signal: timeout, interruption, spurious

  // ---- predicates on control states ----

  predicate Holding(pc: Pc) {
    pc.Test? || pc.Enlist? || pc.Sleep? || pc.Awake? || pc.Leave? || pc.Take? || pc.WaitExit?
    || pc.Add? || pc.Notify? || pc.PostExit?
  }

  predicate IsSleeping(pc: Pc) { pc.Sleeping? }

  predicate IsSignalled(pc: Pc) { pc.Signalled? }

  /** Between lines 71 and 82. */
  predicate InWaitLoop(pc: Pc) {
    pc.Sleep? || pc.Sleeping? || pc.Signalled? || pc.Woken? || pc.Awake? || pc.Leave?
  }

  /** Threads on their way to a unit of value, or to handing one on. */
  predicate Pending(pc: Pc) {
    pc == Signalled || pc == Awake(OK) || pc == Leave(OK) || pc == Take(OK) || pc == Notify
  }

  predicate Returning(pc: Pc) { pc == WaitExit(OK) }

  // ---- steps ----

  predicate At(s: State, t: nat, pc: Pc) { t < |s.pcs| && s.pcs[t] == pc }

  predicate Enabled(s: State, e: Event) {
    e.t < |s.pcs| &&
    match e
    case CallWait(t, _) => s.pcs[t] == Out
    case CallPost(t) => s.pcs[t] == Out
    case Lock(t) =>
      s.lock == None && (s.pcs[t].WaitEntry? || s.pcs[t].Signalled? || s.pcs[t].Woken? || s.pcs[t].PostEntry?)
    case Line(t) => Holding(s.pcs[t]) && !s.pcs[t].Awake? && !s.pcs[t].Notify?
    case Judge(t, _) => s.pcs[t].Awake?
    case Signal(t, chosen) =>
      && s.pcs[t].Notify?
      && (s.waitcount != 0 && Count(s.pcs, IsSleeping) > 0 ==> At(s, chosen, Sleeping))
    case Wake(t, r) => s.pcs[t].Sleeping?
  }

  function Move(s: State, t: nat, pc: Pc): State
    requires t < |s.pcs|
  {
    s.(pcs := s.pcs[t := pc])
  }

  /** The pattern of the signed field, read as the unsigned count. */
  function Units(v: i32): u32 { if v < 0 then v + 0x1_0000_0000 else v }

  function Increment(v: i32): i32 { AddWrap(v, 1) }
  function Decrement(v: i32): i32 { AddWrap(v, -1) }

  function LineStep(s: State, t: nat): State
    requires Enabled(s, Line(t))
  {
    match s.pcs[t]
    case Test(tryonly) =>
      if s.value != 0 then Move(s, t, WaitExit(OK)).(value := Decrement(s.value), takes := s.takes + 1)
      else if tryonly then Move(s, t, WaitExit(EAGAIN))
      else Move(s, t, Enlist)
    case Enlist => Move(s, t, Sleep).(waitcount := AddWrap(s.waitcount, 1))
    case Sleep => Move(s, t, Sleeping).(lock := None)
    case Leave(r) => Move(s, t, Take(r)).(waitcount := AddWrap(s.waitcount, -1))
    case Take(r) =>
      if r == OK then Move(s, t, WaitExit(r)).(value := Decrement(s.value), takes := s.takes + 1)
      else Move(s, t, WaitExit(r))
    case WaitExit(r) => Move(s, t, Out).(lock := None, succeeded := s.succeeded + Bit(r == OK))
    case Add => Move(s, t, Notify).(value := Increment(s.value), posts := s.posts + 1,
                                    wraps := s.wraps + Bit(s.value == -1))
    case _ => Move(s, t, Out).(lock := None)
  }

  function Step(s: State, e: Event): State
    requires Enabled(s, e)
  {
    match e
    case CallWait(t, tryonly) => Move(s, t, WaitEntry(tryonly))
    case CallPost(t) => Move(s, t, PostEntry)
    case Lock(t) =>
      Move(s, t, match s.pcs[t]
                 case WaitEntry(tryonly) => Test(tryonly)
                 case Signalled => Awake(OK)
                 case Woken(r) => Awake(r)
                 case _ => Add).(lock := Some(t))
    case Line(t) => LineStep(s, t)
    case Judge(t, cancelled) =>
      var r := if s.pcs[t].r == EINTR && !cancelled then OK else s.pcs[t].r;
      Move(s, t, if r == OK && s.value == 0 then Sleep else Leave(r))
    case Signal(t, chosen) =>
      if s.waitcount != 0 && Count(s.pcs, IsSleeping) > 0 then Move(Move(s, t, PostExit), chosen, Signalled)
      else Move(s, t, PostExit)
    case Wake(t, r) => Move(s, t, Woken(r))
  }

  /** sem_init: a fresh semaphore, nobody inside. */
  predicate Init(s: State) {
    && |s.pcs| < 0x7fff_ffff && (forall t :: 0 <= t < |s.pcs| ==> s.pcs[t] == Out)
    && s.waitcount == 0 && s.lock == None
    && s.initial == Units(s.value) && s.posts == 0 && s.takes == 0 && s.succeeded == 0 && s.wraps == 0
  }

  function Fresh(count: u32, threads: nat): State {
    State(Signed32(count), 0, None, seq(threads, i => Out), count, 0, 0, 0, 0)
  }

  // ---- invariants ----

  /** The lock is held by the thread whose control state says so. */
  ghost predicate LockInv(s: State) {
    && (s.lock.Some? ==> s.lock.v < |s.pcs|)
    && forall t :: 0 <= t < |s.pcs| ==> (Holding(s.pcs[t]) <==> s.lock == Some(t))
  }

  /** What a thread between two lines knows of value. */
  predicate Knows(pc: Pc, value: i32) {
    && (pc.Enlist? || pc.Sleep? ==> value == 0)
    && (pc == Leave(OK) || pc == Take(OK) ==> value != 0)
  }

  ghost predicate LocalInv(s: State) {
    forall t :: 0 <= t < |s.pcs| ==> Knows(s.pcs[t], s.value)
  }

  /** How many threads are in the wait loop, about to return 0, asleep, pending. */
  datatype Tally = Tally(inLoop: int, returning: int, sleeping: int, pending: int)

  ghost function Tallies(pcs: seq<Pc>): Tally {
    Tally(Count(pcs, InWaitLoop), Count(pcs, Returning), Count(pcs, IsSleeping), Count(pcs, Pending))
  }

  /** waitcount counts the threads in the wait loop. */
  ghost predicate WaitersCounted(s: State, c: Tally) {
    s.waitcount == c.inLoop
  }

  /** No unit of value is lost or made up. */
  ghost predicate Conserved(s: State, c: Tally) {
    && s.initial + s.posts == Units(s.value) + s.takes + 0x1_0000_0000 * s.wraps
    && s.takes == s.succeeded + c.returning
  }

  /** While somebody sleeps, every unit of value has a thread on its way to it. */
  ghost predicate NotStuck(s: State, c: Tally) {
    c.sleeping > 0 ==> Units(s.value) <= c.pending
  }

  ghost predicate CountInv(s: State) {
    && |s.pcs| < 0x7fff_ffff
    && WaitersCounted(s, Tallies(s.pcs)) && Conserved(s, Tallies(s.pcs)) && NotStuck(s, Tallies(s.pcs))
  }

  ghost predicate Inv(s: State) {
    LockInv(s) && LocalInv(s) && CountInv(s)
  }

  lemma InitInv(s: State)
    requires Init(s)
    ensures Inv(s)
  {
    CountZero(s.pcs, InWaitLoop);
    CountZero(s.pcs, Returning);
    CountZero(s.pcs, IsSleeping);
  }

  /** The counts after one thread moves from a to b. */
  function After(c: Tally, a: Pc, b: Pc): Tally {
    Tally(c.inLoop - Bit(InWaitLoop(a)) + Bit(InWaitLoop(b)),
          c.returning - Bit(Returning(a)) + Bit(Returning(b)),
          c.sleeping - Bit(IsSleeping(a)) + Bit(IsSleeping(b)),
          c.pending - Bit(Pending(a)) + Bit(Pending(b)))
  }

  lemma Moved(s: seq<Pc>, t: nat, pc: Pc)
    requires t < |s|
    ensures Tallies(s[t := pc]) == After(Tallies(s), s[t], pc)
  {
    CountUpdate(s, t, pc, InWaitLoop);
    CountUpdate(s, t, pc, Returning);
    CountUpdate(s, t, pc, IsSleeping);
    CountUpdate(s, t, pc, Pending);
  }

  lemma StepLock(s: State, e: Event)
    requires LockInv(s) && Enabled(s, e) && !e.Line?
    ensures LockInv(Step(s, e))
  {
  }

  lemma LineLock(s: State, t: nat)
    requires LockInv(s) && Enabled(s, Line(t))
    ensures LockInv(LineStep(s, t))
  {
    var s' := LineStep(s, t);
    assert s'.pcs == s.pcs[t := s'.pcs[t]];
  }

  lemma StepLocal(s: State, e: Event)
    requires LockInv(s) && LocalInv(s) && Enabled(s, e) && !e.Line?
    ensures LocalInv(Step(s, e))
  {
  }

  lemma LineLocal(s: State, t: nat)
    requires LockInv(s) && LocalInv(s) && Enabled(s, Line(t))
    ensures LocalInv(LineStep(s, t))
  {
    var s' := LineStep(s, t);
    assert s'.pcs == s.pcs[t := s'.pcs[t]];
    forall u | 0 <= u < |s.pcs| ensures Knows(s'.pcs[u], s'.value) {
      assert Knows(s.pcs[u], s.value);
    }
  }

  lemma Wraps(v: i32, c: i32)
    ensures Units(Increment(v)) == if v == -1 then 0 else Units(v) + 1
    ensures v != 0 ==> Units(Decrement(v)) == Units(v) - 1
    ensures c < 0x7fff_ffff ==> AddWrap(c, 1) == c + 1
    ensures 0 < c ==> AddWrap(c, -1) == c - 1
  {
  }

  /** The books after one line of thread t. */
  lemma LineConserves(s: State, t: nat, c: Tally)
    requires Conserved(s, c) && Enabled(s, Line(t)) && Knows(s.pcs[t], s.value)
    ensures Conserved(LineStep(s, t), After(c, s.pcs[t], LineStep(s, t).pcs[t]))
  {
    Wraps(s.value, s.waitcount);
  }

  lemma LineWaiters(s: State, t: nat, c: Tally)
    requires WaitersCounted(s, c) && Enabled(s, Line(t))
    requires 0 <= c.inLoop < 0x7fff_ffff && (InWaitLoop(s.pcs[t]) ==> c.inLoop >= 1)
    ensures WaitersCounted(LineStep(s, t), After(c, s.pcs[t], LineStep(s, t).pcs[t]))
  {
    Wraps(s.value, s.waitcount);
  }

  lemma LineNotStuck(s: State, t: nat, c: Tally)
    requires NotStuck(s, c) && Enabled(s, Line(t)) && Knows(s.pcs[t], s.value) && c.pending >= 0
    ensures NotStuck(LineStep(s, t), After(c, s.pcs[t], LineStep(s, t).pcs[t]))
  {
    Wraps(s.value, s.waitcount);
  }

  lemma LineCounts(s: State, t: nat)
    requires CountInv(s) && Enabled(s, Line(t)) && Knows(s.pcs[t], s.value)
    ensures CountInv(LineStep(s, t))
  {
    var pc := LineStep(s, t).pcs[t];
    assert LineStep(s, t).pcs == s.pcs[t := pc];
    Moved(s.pcs, t, pc);
    if InWaitLoop(s.pcs[t]) { CountPositive(s.pcs, t, InWaitLoop); }
    LineWaiters(s, t, Tallies(s.pcs));
    LineConserves(s, t, Tallies(s.pcs));
    LineNotStuck(s, t, Tallies(s.pcs));
  }

  lemma SignalCounts(s: State, t: nat, chosen: nat)
    requires CountInv(s) && Enabled(s, Signal(t, chosen))
    ensures CountInv(Step(s, Signal(t, chosen)))
  {
    Moved(s.pcs, t, PostExit);
    if s.waitcount != 0 && Count(s.pcs, IsSleeping) > 0 {
      Moved(s.pcs[t := PostExit], chosen, Signalled);
    } else {
      CountMonotone(s.pcs, IsSleeping, InWaitLoop);
    }
  }

  lemma OtherCounts(s: State, e: Event)
    requires CountInv(s) && Enabled(s, e) && !e.Line? && !e.Signal?
    ensures CountInv(Step(s, e))
  {
    var pc := Step(s, e).pcs[e.t];
    assert Step(s, e).pcs == s.pcs[e.t := pc];
    Moved(s.pcs, e.t, pc);
  }

  lemma StepInv(s: State, e: Event)
    requires Inv(s) && Enabled(s, e)
    ensures Inv(Step(s, e))
  {
    if e.Line? {
      LineLock(s, e.t);
      LineLocal(s, e.t);
      LineCounts(s, e.t);
    } else {
      StepLock(s, e);
      StepLocal(s, e);
      if e.Signal? { SignalCounts(s, e.t, e.chosen); } else { OtherCounts(s, e); }
    }
  }

  // ---- runs ----

  lemma StepKeeps()
    ensures Keeps(Step, Inv)
  {
    forall s: State, e: Event | Inv(s) && Enabled(s, e) ensures Inv(Step(s, e)) { StepInv(s, e); }
  }

  lemma RunInv(s: State, es: seq<Event>)
    requires Inv(s) && AllEnabled(Step, s, es)
    ensures Inv(Final(Step, s, es))
  {
    StepKeeps();
    RunKeeps(Step, Inv, s, es);
  }

  ghost predicate Reachable(s: State) {
    EndsRun(Init, Step, s)
  }

  lemma ReachableInv(s: State)
    requires Reachable(s)
    ensures Inv(s)
  {
    forall s0: State | Init(s0) ensures Inv(s0) { InitInv(s0); }
    StepKeeps();
    EndKeeps(Init, Step, Inv, s);
  }

  /** At most one thread is between taking and releasing the lock. */
  lemma MutualExclusion(s: State, t: nat, u: nat)
    requires Reachable(s) && t < |s.pcs| && u < |s.pcs| && Holding(s.pcs[t]) && Holding(s.pcs[u])
    ensures t == u
  {
    ReachableInv(s);
  }

  /** The units that are there: initial count + posts - successful waits. */
  function Balance(s: State): int { s.initial + s.posts - s.succeeded }

  /** With the lock free, no unit is lost or made up but 2^32 at each wrap-around from -1 to 0. */
  lemma Conservation(s: State)
    requires Reachable(s) && s.lock == None
    ensures Balance(s) == Units(s.value) + 0x1_0000_0000 * s.wraps
    ensures Units(s.value) == Balance(s) <==> Balance(s) < 0x1_0000_0000
  {
    ReachableInv(s);
    BalanceFromInv(s);
  }

  /** The int itself, as sem_getvalue reports it, is the number of units exactly as long as there
      are fewer than 2^31, and negative exactly when the balance modulo 2^32 is past that. */
  lemma ValueExact(s: State)
    requires Reachable(s) && s.lock == None
    ensures s.value == Balance(s) <==> Balance(s) < 0x8000_0000
    ensures s.value < 0 <==> Balance(s) % 0x1_0000_0000 >= 0x8000_0000
  {
    ReachableInv(s);
    BalanceFromInv(s);
  }

  lemma BalanceFromInv(s: State)
    requires Inv(s) && (s.lock.Some? ==> !Returning(s.pcs[s.lock.v]))
    ensures Balance(s) == Units(s.value) + 0x1_0000_0000 * s.wraps
    ensures Balance(s) % 0x1_0000_0000 == Units(s.value)
  {
    CountZero(s.pcs, Returning);
    RemainderOf(Units(s.value), s.wraps, Balance(s));
  }

  lemma RemainderOf(r: u32, k: nat, n: int)
    requires n == r + 0x1_0000_0000 * k
    ensures n % 0x1_0000_0000 == r
  {
  }

  /** The increment of line 101 is signed: it leaves the range of int exactly when the units there
      are 2^31 - 1, modulo 2^32. */
  lemma OverflowExactly(s: State, t: nat)
    requires Reachable(s) && At(s, t, Add)
    ensures s.value + 1 > 0x7fff_ffff <==> Balance(s) % 0x1_0000_0000 == 0x7fff_ffff
    ensures s.value + 1 > 0x7fff_ffff <==> Step(s, Line(t)).value == -0x8000_0000
  {
    ReachableInv(s);
    BalanceFromInv(s);
  }

  /** The test of line 184: EBUSY exactly while some thread is between lines 71 and 82. */
  lemma DestroyTestExact(s: State)
    requires Reachable(s)
    ensures s.waitcount != 0 <==> exists t :: 0 <= t < |s.pcs| && InWaitLoop(s.pcs[t])
    ensures s.waitcount == Count(s.pcs, InWaitLoop)
  {
    ReachableInv(s);
    CountZero(s.pcs, InWaitLoop);
  }

  /** No stuck waiter: with the lock free, while somebody sleeps there are at least as many
      signalled threads that have not run yet as units of value. */
  lemma NoStuckWaiter(s: State, sleeper: nat)
    requires Reachable(s) && s.lock == None && At(s, sleeper, Sleeping)
    ensures Units(s.value) <= Count(s.pcs, IsSignalled)
  {
    ReachableInv(s);
    CountPositive(s.pcs, sleeper, IsSleeping);
    CountMonotone(s.pcs, Pending, IsSignalled);
  }

  /** So "value not 0 with all waiters asleep" is unreachable: some thread t has been signalled,
      and t alone can go on to take a unit. */
  lemma SomebodyWillTake(s: State, sleeper: nat) returns (t: nat)
    requires Reachable(s) && s.lock == None && At(s, sleeper, Sleeping) && s.value != 0
    ensures At(s, t, Signalled)
  {
    NoStuckWaiter(s, sleeper);
    t := CountWitness(s.pcs, IsSignalled);
  }

  // ---- what the threads do between two points where others can run ----

  function Two(t: nat): seq<Event> { [Line(t)] + ([Line(t)] + []) }

  /** _sem_wait from line 64 to its return or to going to sleep. */
  function BeginRun(s: State, t: nat, tryonly: bool): seq<Event> {
    [Lock(t)] + (if s.value != 0 || tryonly then Two(t) else [Line(t)] + Two(t))
  }

  function AfterBegin(s: State, t: nat, tryonly: bool): State
    requires At(s, t, WaitEntry(tryonly))
  {
    if s.value != 0 then
      Move(s, t, Out).(value := Decrement(s.value), takes := s.takes + 1, succeeded := s.succeeded + 1)
    else if tryonly then Move(s, t, Out)
    else Move(s, t, Sleeping).(waitcount := AddWrap(s.waitcount, 1))
  }

  lemma BeginIsRun(s: State, t: nat, tryonly: bool)
    requires At(s, t, WaitEntry(tryonly)) && s.lock == None
    ensures AllEnabled(Step, s, BeginRun(s, t, tryonly))
    ensures Final(Step, s, BeginRun(s, t, tryonly)) == AfterBegin(s, t, tryonly)
  {
    var s1 := Step(s, Lock(t));
    assert s1.pcs == s.pcs[t := Test(tryonly)];
    if s.value != 0 || tryonly {
      TestReturnsIsRun(s1, t, tryonly);
      RunCons(Step, s, Lock(t), Two(t));
      assert s1.pcs[t := WaitEntry(tryonly)][t := Out] == s.pcs[t := Out];
    } else {
      TestSleepsIsRun(s1, t, tryonly);
      RunCons(Step, s, Lock(t), [Line(t)] + Two(t));
      assert s1.pcs[t := Sleeping] == s.pcs[t := Sleeping];
    }
  }

  lemma TestReturnsIsRun(s: State, t: nat, tryonly: bool)
    requires At(s, t, Test(tryonly)) && s.lock == Some(t) && (s.value != 0 || tryonly)
    ensures AllEnabled(Step, s, Two(t))
    ensures Final(Step, s, Two(t)) == AfterBegin(Move(s, t, WaitEntry(tryonly)), t, tryonly).(lock := None)
  {
    var rc := if s.value != 0 then OK else EAGAIN;
    var s2 := Step(s, Line(t));
    assert s2.pcs == s.pcs[t := WaitExit(rc)];
    var s3 := Step(s2, Line(t));
    assert s3.pcs == s.pcs[t := Out];
    assert s.pcs[t := WaitEntry(tryonly)][t := Out] == s.pcs[t := Out];
    RunTwo(s, t);
  }

  lemma TestSleepsIsRun(s: State, t: nat, tryonly: bool)
    requires At(s, t, Test(tryonly)) && s.lock == Some(t) && s.value == 0 && !tryonly
    ensures AllEnabled(Step, s, [Line(t)] + Two(t))
    ensures Final(Step, s, [Line(t)] + Two(t))
            == Move(s, t, Sleeping).(lock := None, waitcount := AddWrap(s.waitcount, 1))
  {
    var s2 := Step(s, Line(t));
    assert s2.pcs == s.pcs[t := Enlist];
    var s3 := Step(s2, Line(t));
    assert s3.pcs == s.pcs[t := Sleep];
    var s4 := Step(s3, Line(t));
    assert s4.pcs == s.pcs[t := Sleeping];
    RunTwo(s2, t);
    RunCons(Step, s, Line(t), Two(t));
  }

  lemma RunTwo(s: State, t: nat)
    requires Enabled(s, Line(t)) && Enabled(Step(s, Line(t)), Line(t))
    ensures AllEnabled(Step, s, Two(t)) && Final(Step, s, Two(t)) == Step(Step(s, Line(t)), Line(t))
  {
    RunCons(Step, Step(s, Line(t)), Line(t), []);
    RunCons(Step, s, Line(t), [Line(t)] + []);
  }

  /** The outcome of lines 78-81: go round again (None) or leave with r. */
  function Verdict(s: State, r: Rc, cancelled: bool): Option<Rc> {
    if r == OK || (r == EINTR && !cancelled) then (if s.value == 0 then None else Some(OK)) else Some(r)
  }

  /** _sem_wait from waking up in line 73 to its return or to going back to sleep. */
  function ResumeRun(s: State, t: nat, r: Rc, cancelled: bool): seq<Event> {
    [Lock(t)] + ([Judge(t, cancelled)] + ([Line(t)] + (if Verdict(s, r, cancelled) == None then [] else Two(t))))
  }

  function AfterResume(s: State, t: nat, r: Rc, cancelled: bool): State
    requires t < |s.pcs|
  {
    match Verdict(s, r, cancelled)
    case None => Move(s, t, Sleeping)
    case Some(rc) =>
      var left := Move(s, t, Out).(waitcount := AddWrap(s.waitcount, -1));
      if rc == OK then left.(value := Decrement(s.value), takes := s.takes + 1, succeeded := s.succeeded + 1)
      else left
  }

  predicate WokenWith(s: State, t: nat, r: Rc) {
    At(s, t, Woken(r)) || (At(s, t, Signalled) && r == OK)
  }

  lemma ResumeIsRun(s: State, t: nat, r: Rc, cancelled: bool)
    requires WokenWith(s, t, r) && s.lock == None
    ensures AllEnabled(Step, s, ResumeRun(s, t, r, cancelled))
    ensures Final(Step, s, ResumeRun(s, t, r, cancelled)) == AfterResume(s, t, r, cancelled)
  {
    var s1 := Move(s, t, Awake(r)).(lock := Some(t));
    assert Step(s, Lock(t)) == s1;
    JudgedIsRun(s1, t, r, cancelled);
    var verdict := Verdict(s, r, cancelled);
    RunCons(Step, s, Lock(t), [Judge(t, cancelled)] + ([Line(t)] + (if verdict == None then [] else Two(t))));
    AfterLocking(s, t, r, cancelled);
  }

  /** Waking up in line 73 with the lock changes nothing else. */
  lemma AfterLocking(s: State, t: nat, r: Rc, cancelled: bool)
    requires t < |s.pcs| && s.lock == None
    ensures AfterResume(Move(s, t, Awake(r)).(lock := Some(t)), t, r, cancelled).(lock := None)
            == AfterResume(s, t, r, cancelled)
  {
    assert s.pcs[t := Awake(r)][t := Sleeping] == s.pcs[t := Sleeping];
    assert s.pcs[t := Awake(r)][t := Out] == s.pcs[t := Out];
  }

  /** Lines 78-87, with the lock held. */
  lemma JudgedIsRun(s: State, t: nat, r: Rc, cancelled: bool)
    requires At(s, t, Awake(r)) && s.lock == Some(t)
    ensures var run := [Judge(t, cancelled)] + ([Line(t)] + (if Verdict(s, r, cancelled) == None then [] else Two(t)));
      AllEnabled(Step, s, run) && Final(Step, s, run) == AfterResume(s, t, r, cancelled).(lock := None)
  {
    match Verdict(s, r, cancelled)
    case None => SleepsAgain(s, t, r, cancelled);
    case Some(rc) => JudgedLeaves(s, t, r, cancelled, rc);
  }

  lemma SleepsAgain(s: State, t: nat, r: Rc, cancelled: bool)
    requires At(s, t, Awake(r)) && Verdict(s, r, cancelled) == None
    ensures var run := [Judge(t, cancelled)] + ([Line(t)] + []);
      AllEnabled(Step, s, run) && Final(Step, s, run) == Move(s, t, Sleeping).(lock := None)
  {
    var s1 := Move(s, t, Sleep);
    assert Step(s, Judge(t, cancelled)) == s1;
    assert Step(s1, Line(t)).pcs == s.pcs[t := Sleeping];
    RunCons(Step, s1, Line(t), []);
    RunCons(Step, s, Judge(t, cancelled), [Line(t)] + []);
  }

  lemma JudgedLeaves(s: State, t: nat, r: Rc, cancelled: bool, rc: Rc)
    requires At(s, t, Awake(r)) && Verdict(s, r, cancelled) == Some(rc)
    ensures var run := [Judge(t, cancelled)] + ([Line(t)] + Two(t));
      && AllEnabled(Step, s, run)
      && Final(Step, s, run) == Move(s, t, Out).(lock := None, waitcount := AddWrap(s.waitcount, -1),
                                  value := if rc == OK then Decrement(s.value) else s.value,
                                  takes := s.takes + Bit(rc == OK), succeeded := s.succeeded + Bit(rc == OK))
  {
    var s1 := Move(s, t, Leave(rc));
    assert Step(s, Judge(t, cancelled)) == s1;
    FromLeave(s1, t, rc);
    assert s1.pcs[t := Out] == s.pcs[t := Out];
    RunCons(Step, s, Judge(t, cancelled), [Line(t)] + Two(t));
  }

  /** Lines 82-87. */
  lemma FromLeave(s: State, t: nat, r: Rc)
    requires At(s, t, Leave(r))
    ensures AllEnabled(Step, s, [Line(t)] + Two(t))
    ensures Final(Step, s, [Line(t)] + Two(t))
            == Move(s, t, Out).(lock := None, waitcount := AddWrap(s.waitcount, -1),
                                value := if r == OK then Decrement(s.value) else s.value,
                                takes := s.takes + Bit(r == OK), succeeded := s.succeeded + Bit(r == OK))
  {
    var s1 := Step(s, Line(t));
    assert s1.pcs == s.pcs[t := Take(r)];
    LeaveIsRun(s1, t, r);
    assert s1.pcs[t := Out] == s.pcs[t := Out];
    RunCons(Step, s, Line(t), Two(t));
  }

  /** Lines 83-87. */
  lemma LeaveIsRun(s: State, t: nat, r: Rc)
    requires At(s, t, Take(r))
    ensures AllEnabled(Step, s, Two(t))
    ensures Final(Step, s, Two(t)) == Move(s, t, Out).(lock := None,
                                  value := if r == OK then Decrement(s.value) else s.value,
                                  takes := s.takes + Bit(r == OK), succeeded := s.succeeded + Bit(r == OK))
  {
    var s1 := Step(s, Line(t));
    assert s1.pcs == s.pcs[t := WaitExit(r)];
    var s2 := Step(s1, Line(t));
    assert s2.pcs == s.pcs[t := Out];
    RunTwo(s, t);
  }

  /** A signalled thread that runs while value is positive takes a unit. */
  lemma SignalledTakes(s: State, t: nat, cancelled: bool) returns (run: seq<Event>, s': State)
    requires s.lock == None && At(s, t, Signalled) && s.value != 0
    ensures AllEnabled(Step, s, run) && Final(Step, s, run) == s'
    ensures s'.pcs == s.pcs[t := Out] && Units(s'.value) == Units(s.value) - 1 && s'.succeeded == s.succeeded + 1
  {
    run, s' := ResumeRun(s, t, OK, cancelled), AfterResume(s, t, OK, cancelled);
    ResumeIsRun(s, t, OK, cancelled);
  }

  // ---- what a whole wait call returns ----

  /** t does not begin another call. */
  predicate NoCall(e: Event, t: nat) { e.t == t ==> !e.CallWait? && !e.CallPost? }

  ghost predicate NoCalls(es: seq<Event>, t: nat) { forall e :: e in es ==> NoCall(e, t) }

  /** Bound to return r: past the loop, or awake for a reason that ends it. */
  predicate Bound(pc: Pc, r: Rc) {
    || pc == Leave(r) || pc == Take(r) || pc == WaitExit(r)
    || (r != OK && r != EINTR && (pc == Woken(r) || pc == Awake(r)))
  }

  ghost predicate BoundOrOut(s: State, t: nat, r: Rc) {
    t < |s.pcs| && (Bound(s.pcs[t], r) || s.pcs[t] == Out)
  }

  /** Only t itself and a signal that picks it while it sleeps move t. */
  lemma OnlyOwnMoves(s: State, e: Event, t: nat)
    requires Enabled(s, e) && t < |s.pcs| && e.t != t
    ensures |Step(s, e).pcs| == |s.pcs|
    ensures Step(s, e).pcs[t] == s.pcs[t] || (s.pcs[t].Sleeping? && Step(s, e).pcs[t].Signalled?)
  {
  }

  lemma BoundStep(s: State, e: Event, t: nat, r: Rc)
    requires Enabled(s, e) && NoCall(e, t) && BoundOrOut(s, t, r)
    ensures BoundOrOut(Step(s, e), t, r)
  {
    if e.t != t { OnlyOwnMoves(s, e, t); }
  }

  /** Whatever the others do, such a thread does not sleep again and returns r. */
  lemma BoundReturns(s: State, t: nat, r: Rc, es: seq<Event>)
    requires t < |s.pcs| && Bound(s.pcs[t], r) && AllEnabled(Step, s, es) && NoCalls(es, t)
    ensures BoundOrOut(Final(Step, s, es), t, r)
  {
    var inv, kind := (x: State) => BoundOrOut(x, t, r), (e: Event) => NoCall(e, t);
    forall x: State, e: Event | inv(x) && kind(e) && Enabled(x, e) ensures inv(Step(x, e)) { BoundStep(x, e, t, r); }
    RunKeepsUnder(Step, inv, kind, s, es);
  }

  /** The outcome of lines 78-81, r being what the wait returned: a timeout ends the loop, an
      interruption only if it is a cancellation, and otherwise there has to be a unit. */
  lemma JudgeExactly(s: State, t: nat, cancelled: bool)
    requires Enabled(s, Judge(t, cancelled))
    ensures var r, pc := s.pcs[t].r, Step(s, Judge(t, cancelled)).pcs[t];
      && (r == ETIMEDOUT || r == EAGAIN || (r == EINTR && cancelled) ==> pc == Leave(r))
      && (r == OK || (r == EINTR && !cancelled) ==> pc == if s.value != 0 then Leave(OK) else Sleep)
  {
  }

  /** A thread in a call of _sem_wait in which reason r has not come up. */
  ghost predicate Without(s: State, t: nat, r: Rc) {
    t < |s.pcs| && !Bound(s.pcs[t], r) && s.pcs[t] != Woken(r) && s.pcs[t] != Awake(r) && s.pcs[t] != Test(true)
    && s.pcs[t] != WaitEntry(true)
  }

  lemma WithoutStep(s: State, e: Event, t: nat, r: Rc)
    requires Enabled(s, e) && NoCall(e, t) && Without(s, t, r) && r != OK && e != Wake(t, r)
    ensures Without(Step(s, e), t, r)
  {
    if e.t != t { OnlyOwnMoves(s, e, t); } else if e.Line? { WithoutLine(s, t, r); }
  }

  lemma WithoutLine(s: State, t: nat, r: Rc)
    requires Enabled(s, Line(t)) && Without(s, t, r) && r != OK
    ensures Without(LineStep(s, t), t, r)
  {
  }

  /** r does not come out of the wait without having come in. */
  lemma WithoutReason(s: State, t: nat, r: Rc, es: seq<Event>)
    requires Without(s, t, r) && r != OK && AllEnabled(Step, s, es) && NoCalls(es, t) && Wake(t, r) !in es
    ensures Without(Final(Step, s, es), t, r)
  {
    var inv, kind := (x: State) => Without(x, t, r), (e: Event) => NoCall(e, t) && e != Wake(t, r);
    forall x: State, e: Event | inv(x) && kind(e) && Enabled(x, e) ensures inv(Step(x, e)) { WithoutStep(x, e, t, r); }
    RunKeepsUnder(Step, inv, kind, s, es);
  }

  /** A wait call, from line 64 on, that is about to return rc: it returns ETIMEDOUT exactly if the
      sleep timed out, EINTR only if it was interrupted and cancelled, and EAGAIN only if the HAL's
      wait said so. */
  lemma WaitResult(s: State, t: nat, es: seq<Event>, rc: Rc)
    requires Enabled(s, CallWait(t, false)) && AllEnabled(Step, Step(s, CallWait(t, false)), es) && NoCalls(es, t)
    requires At(Final(Step, Step(s, CallWait(t, false)), es), t, WaitExit(rc))
    ensures rc == ETIMEDOUT <==> Wake(t, ETIMEDOUT) in es
    ensures rc == EINTR ==> Wake(t, EINTR) in es && Judge(t, true) in es
    ensures rc == EAGAIN ==> Wake(t, EAGAIN) in es
  {
    var s1 := Step(s, CallWait(t, false));
    if Wake(t, ETIMEDOUT) in es {
      TimedOutReturns(s1, t, es);
    } else {
      WithoutReason(s1, t, ETIMEDOUT, es);
    }
    if Wake(t, EINTR) !in es { WithoutReason(s1, t, EINTR, es); }
    if Judge(t, true) !in es { NotCancelled(s1, t, es); }
    if Wake(t, EAGAIN) !in es { WithoutReason(s1, t, EAGAIN, es); }
  }

  lemma TimedOutReturns(s: State, t: nat, es: seq<Event>)
    requires AllEnabled(Step, s, es) && NoCalls(es, t) && Wake(t, ETIMEDOUT) in es
    ensures BoundOrOut(Final(Step, s, es), t, ETIMEDOUT)
  {
    var i :| 0 <= i < |es| && es[i] == Wake(t, ETIMEDOUT);
    var s1 := RunSplit(Step, s, es, i);
    BoundReturns(Step(s1, es[i]), t, ETIMEDOUT, es[i + 1..]);
  }

  ghost predicate Uncancelled(s: State, t: nat) { t < |s.pcs| && !Bound(s.pcs[t], EINTR) }

  lemma NotCancelled(s: State, t: nat, es: seq<Event>)
    requires Uncancelled(s, t) && AllEnabled(Step, s, es) && Judge(t, true) !in es
    ensures Uncancelled(Final(Step, s, es), t)
  {
    var inv, kind := (x: State) => Uncancelled(x, t), (e: Event) => e != Judge(t, true);
    forall x: State, e: Event | inv(x) && kind(e) && Enabled(x, e) ensures inv(Step(x, e)) {
      if e.t != t { OnlyOwnMoves(x, e, t); }
    }
    RunKeepsUnder(Step, inv, kind, s, es);
  }

  /** In a call that only tries. */
  ghost predicate Trying(s: State, t: nat) {
    t < |s.pcs| && (s.pcs[t] == WaitEntry(true) || s.pcs[t] == Test(true)
                    || s.pcs[t] == WaitExit(OK) || s.pcs[t] == WaitExit(EAGAIN) || s.pcs[t] == Out)
  }

  /** It never sleeps, and returns 0 or EAGAIN. */
  lemma TryNeverSleeps(s: State, t: nat, es: seq<Event>)
    requires Enabled(s, CallWait(t, true)) && AllEnabled(Step, Step(s, CallWait(t, true)), es) && NoCalls(es, t)
    ensures Trying(Final(Step, Step(s, CallWait(t, true)), es), t)
  {
    var inv, kind := (x: State) => Trying(x, t), (e: Event) => NoCall(e, t);
    forall x: State, e: Event | inv(x) && kind(e) && Enabled(x, e) ensures inv(Step(x, e)) {
      if e.t != t { OnlyOwnMoves(x, e, t); }
    }
    RunKeepsUnder(Step, inv, kind, Step(s, CallWait(t, true)), es);
  }

  /** _sem_post, lines 100-108. */
  function PostRun(t: nat, chosen: nat): seq<Event> {
    [Lock(t)] + ([Line(t)] + ([Signal(t, chosen)] + ([Line(t)] + [])))
  }

  function AfterPost(s: State, t: nat, chosen: nat): State
    requires t < |s.pcs| && chosen < |s.pcs|
  {
    var woken := if Count(s.pcs, IsSleeping) > 0 then Move(Move(s, t, Out), chosen, Signalled) else Move(s, t, Out);
    woken.(value := Increment(s.value), posts := s.posts + 1, wraps := s.wraps + Bit(s.value == -1))
  }

  lemma PostIsRun(s: State, t: nat, chosen: nat)
    requires Inv(s) && At(s, t, PostEntry) && s.lock == None && chosen < |s.pcs|
    requires Count(s.pcs, IsSleeping) > 0 ==> At(s, chosen, Sleeping)
    ensures AllEnabled(Step, s, PostRun(t, chosen))
    ensures Final(Step, s, PostRun(t, chosen)) == AfterPost(s, t, chosen)
  {
    var s1, s2 := Step(s, Lock(t)), Added(s, t);
    PostFront(s, t);
    SleepersWait(s.pcs, t);
    NotifyIsRun(s2, t, chosen);
    RunCons(Step, s1, Line(t), [Signal(t, chosen)] + ([Line(t)] + []));
    RunCons(Step, s, Lock(t), [Line(t)] + ([Signal(t, chosen)] + ([Line(t)] + [])));
    assert s.pcs[t := Notify][t := Out] == s.pcs[t := Out];
  }

  function Added(s: State, t: nat): State
    requires t < |s.pcs|
  {
    Move(s, t, Notify).(lock := Some(t), value := Increment(s.value), posts := s.posts + 1,
                        wraps := s.wraps + Bit(s.value == -1))
  }

  lemma PostFront(s: State, t: nat)
    requires At(s, t, PostEntry) && s.lock == None
    ensures Enabled(s, Lock(t)) && Enabled(Step(s, Lock(t)), Line(t))
    ensures Step(Step(s, Lock(t)), Line(t)) == Added(s, t)
  {
    assert Step(s, Lock(t)).pcs == s.pcs[t := Add];
    assert Step(Step(s, Lock(t)), Line(t)).pcs == s.pcs[t := Notify];
  }

  /** Lines 102-108. */
  lemma NotifyIsRun(s: State, t: nat, chosen: nat)
    requires At(s, t, Notify) && (Count(s.pcs, IsSleeping) > 0 ==> s.waitcount != 0 && At(s, chosen, Sleeping))
    ensures AllEnabled(Step, s, [Signal(t, chosen)] + ([Line(t)] + []))
    ensures Final(Step, s, [Signal(t, chosen)] + ([Line(t)] + []))
            == (if Count(s.pcs, IsSleeping) > 0 then Move(Move(s, t, Out), chosen, Signalled)
                else Move(s, t, Out)).(lock := None)
  {
    var s1 := Step(s, Signal(t, chosen));
    var s2 := Step(s1, Line(t));
    assert s2.pcs == if Count(s.pcs, IsSleeping) > 0 then s.pcs[t := Out][chosen := Signalled] else s.pcs[t := Out];
    RunCons(Step, s1, Line(t), []);
    RunCons(Step, s, Signal(t, chosen), [Line(t)] + []);
  }

  lemma SleepersWait(pcs: seq<Pc>, t: nat)
    requires t < |pcs| && pcs[t] == PostEntry
    ensures Count(pcs[t := Notify], IsSleeping) == Count(pcs, IsSleeping)
    ensures Count(pcs, IsSleeping) <= Count(pcs, InWaitLoop)
  {
    CountUpdate(pcs, t, Notify, IsSleeping);
    CountMonotone(pcs, IsSleeping, InWaitLoop);
  }

  /** A whole call of _sem_post with nobody asleep. */
  lemma OneMorePost(s: State, t: nat) returns (es: seq<Event>, s': State)
    requires Inv(s) && At(s, t, Out) && s.lock == None && Count(s.pcs, IsSleeping) == 0
    ensures AllEnabled(Step, s, es) && Final(Step, s, es) == s' && s'.lock == None
    ensures s'.value == Increment(s.value) && s'.wraps == s.wraps + Bit(s.value == -1)
    ensures s'.posts == s.posts + 1 && s'.succeeded == s.succeeded
  {
    var s1 := Step(s, CallPost(t));
    StepInv(s, CallPost(t));
    Moved(s.pcs, t, PostEntry);
    PostIsRun(s1, t, t);
    RunCons(Step, s, CallPost(t), PostRun(t, t));
    es, s' := [CallPost(t)] + PostRun(t, t), AfterPost(s1, t, t);
  }

  /** Line 101 does not check for overflow.  One post by any thread makes 2^31 - 1 units a negative
      value, and 2^32 - 1 units none. */
  lemma PostCanOverflow(s0: State, t: nat) returns (es: seq<Event>, s: State)
    requires Init(s0) && t < |s0.pcs|
    ensures AllEnabled(Step, s0, es) && Final(Step, s0, es) == s
    ensures s.lock == None && s.posts == 1 && s.succeeded == 0
    ensures s0.initial == 0x7fff_ffff ==> s.value == -0x8000_0000 && s.wraps == 0
    ensures s0.initial == 0xffff_ffff ==> s.value == 0 && s.wraps == 1
  {
    InitInv(s0);
    CountZero(s0.pcs, IsSleeping);
    es, s := OneMorePost(s0, t);
  }

  /** sem_init accepts every unsigned count; from 2^31 on the value is negative at once. */
  lemma InitCanBeNegative(threads: nat, count: u32) returns (s: State)
    requires threads < 0x7fff_ffff
    ensures Init(s) && Reachable(s) && s.lock == None && |s.pcs| == threads && Balance(s) == count
    ensures s.value < 0 <==> count >= 0x8000_0000
  {
    s := Fresh(count, threads);
    assert AllEnabled(Step, s, []) && Final(Step, s, []) == s;
  }

  // ---- the functions themselves ----

  lemma PostFields(s: State, t: nat, chosen: nat)
    requires At(s, t, PostEntry) && chosen < |s.pcs|
    requires Count(s.pcs, IsSleeping) > 0 ==> At(s, chosen, Sleeping)
    ensures var s' := AfterPost(s, t, chosen);
      && Units(s'.value) == (Units(s.value) + 1) % 0x1_0000_0000 && s'.value == Increment(s.value)
      && s'.waitcount == s.waitcount && s'.pcs[t] == Out
      && (Count(s.pcs, IsSleeping) > 0 ==> s'.pcs[chosen] == Signalled)
  {
    Wraps(s.value, s.waitcount);
  }

  /** There is room for one more in waitcount. */
  lemma OutsideTheLoop(s: State, t: nat)
    requires Inv(s) && t < |s.pcs| && !InWaitLoop(s.pcs[t])
    ensures s.waitcount < 0x7fff_ffff
  {
    if Count(s.pcs, InWaitLoop) >= |s.pcs| { CountAll(s.pcs, InWaitLoop); }
  }

  /** struct __sem with the threads' control states beside it.  Each method is the code between
      two points where another thread can run; the lemmas above say that its effect on the state
      is a run of the machine. */
  class Semaphore {
    var value: i32
    var waitcount: i32
    var live: bool          // the caller's pointer has not been cleared
    ghost var view: State

    ghost predicate Consistent()
      reads this
    {
      value == view.value && waitcount == view.waitcount && Inv(view)
    }

    /** Consistent, with the lock free. */
    ghost predicate Valid()
      reads this
    {
      Consistent() && view.lock == None
    }

    /** sem_init, lines 159-166. */
    constructor (count: u32, threads: nat)
      requires threads < 0x7fff_ffff
      ensures Valid() && Init(view) && Units(value) == count && |view.pcs| == threads && live
    {
      live := true;
      value := Signed32(count);
      waitcount := 0;
      view := Fresh(count, threads);
      new;
      InitInv(view);
    }

    /** A thread calls _sem_wait or _sem_post, or a sleeper wakes up without a signal. */
    ghost method Happens(e: Event)
      requires Consistent() && Enabled(view, e) && (e.CallWait? || e.CallPost? || e.Wake?)
      modifies this`view
      ensures Consistent() && view == Step(old(view), e) && view.lock == old(view).lock
    {
      StepInv(view, e);
      view := Step(view, e);
    }

    /** _sem_wait, lines 64-73: returns, or goes to sleep (None). */
    method BeginWait(t: nat, tryonly: bool) returns (r: Option<Rc>)
      requires Valid() && At(view, t, WaitEntry(tryonly))
      modifies this
      ensures Valid() && view == AfterBegin(old(view), t, tryonly)
      ensures r == if old(value) != 0 then Some(OK) else if tryonly then Some(EAGAIN) else None
      ensures Units(value) == Units(old(value)) - Bit(r == Some(OK)) && waitcount == old(waitcount) + Bit(r == None)
      ensures view.pcs == old(view).pcs[t := if r == None then Sleeping else Out]
    {
      Wraps(value, waitcount);
      OutsideTheLoop(view, t);
      BeginIsRun(view, t, tryonly);
      RunInv(view, BeginRun(view, t, tryonly));
      if value != 0 {
        value := Decrement(value);
        r := Some(OK);
      } else if tryonly {
        r := Some(EAGAIN);
      } else {
        waitcount := AddWrap(waitcount, 1);
        r := None;
      }
      view := AfterBegin(view, t, tryonly);
    }

    /** _sem_wait, lines 73-87, after waking up with result r0: returns, or sleeps again. */
    method ResumeWait(t: nat, r0: Rc, cancelled: bool) returns (r: Option<Rc>)
      requires Valid() && WokenWith(view, t, r0)
      modifies this
      ensures Valid() && view == AfterResume(old(view), t, r0, cancelled)
      ensures r == None <==> old(value) == 0 && (r0 == OK || (r0 == EINTR && !cancelled))
      ensures r == Some(OK) <==> old(value) != 0 && (r0 == OK || (r0 == EINTR && !cancelled))
      ensures r == None || r == Some(OK) || r == Some(r0)
      ensures Units(value) == Units(old(value)) - Bit(r == Some(OK))
      ensures view.succeeded == old(view).succeeded + Bit(r == Some(OK)) && waitcount == old(waitcount) - Bit(r.Some?)
      ensures view.pcs == old(view).pcs[t := if r == None then Sleeping else Out]
    {
      Wraps(value, waitcount);
      CountPositive(view.pcs, t, InWaitLoop);
      ResumeIsRun(view, t, r0, cancelled);
      RunInv(view, ResumeRun(view, t, r0, cancelled));
      ghost var after := AfterResume(view, t, r0, cancelled);
      var rc := r0;
      if rc == EINTR && !cancelled { rc := OK; }
      if rc == OK && value == 0 {
        r := None;
      } else {
        waitcount := AddWrap(waitcount, -1);
        if rc == OK { value := Decrement(value); }
        r := Some(rc);
      }
      view := after;
    }

    /** _sem_post, lines 100-108; chosen is the sleeper that the signal picks, if there is one. */
    method Post(t: nat, chosen: nat) returns (rv: int)
      requires Valid() && At(view, t, PostEntry) && chosen < |view.pcs|
      requires Count(view.pcs, IsSleeping) > 0 ==> At(view, chosen, Sleeping)
      modifies this
      ensures Valid() && view == AfterPost(old(view), t, chosen)
      ensures rv == if Count(old(view.pcs), InWaitLoop) > 0 then 1 else 0
      ensures Units(value) == (Units(old(value)) + 1) % 0x1_0000_0000 && waitcount == old(waitcount)
      ensures view.pcs[t] == Out && (Count(old(view.pcs), IsSleeping) > 0 ==> view.pcs[chosen] == Signalled)
    {
      PostFields(view, t, chosen);
      PostIsRun(view, t, chosen);
      RunInv(view, PostRun(t, chosen));
      ghost var after := AfterPost(view, t, chosen);
      rv := 0;
      value := Increment(value);
      if waitcount != 0 { rv := 1; }
      view := after;
    }

    /** sem_getvalue, lines 214-216: the number of units, as long as it is below 2^31. */
    method GetValue() returns (sval: i32)
      requires Valid()
      ensures sval == Balance(view) <==> Balance(view) < 0x8000_0000
      ensures sval == value && (sval < 0 <==> Balance(view) % 0x1_0000_0000 >= 0x8000_0000)
    {
      BalanceFromInv(view);
      sval := value;
    }

    /** sem_destroy, lines 184-198: EBUSY exactly when some thread is in the wait loop, whoever
        holds the lock. */
    method Destroy() returns (busy: bool)
      requires Consistent() && live
      modifies this`live
      ensures Consistent() && live == busy
      ensures busy <==> exists t :: 0 <= t < |view.pcs| && InWaitLoop(view.pcs[t])
    {
      CountZero(view.pcs, InWaitLoop);
      busy := waitcount != 0;
      if !busy { live := false; }
    }
  }
}
