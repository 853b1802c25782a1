/** pthread/rthread_mutex.c, lines 93-296: the three-state mutex, one step for each access to the
    shared fields, over any number of threads and any use, also unlocking by a thread that does
    not hold the mutex.

    mutex->sem is a lock with a wait set.  Its lock is held only around going to sleep, waking up
    and signalling, each of which is one step; a thread may also wake up without a signal. */
module Mutex {
  import opened Counting
  import opened Options
  import opened Runs

  const UNLOCKED: int := 0
  const LOCKED: int := 1
  const CONTENDED: int := 2
  const INT_MAX: int := 0x7fff_ffff

  /** PTHREAD_MUTEX_ERRORCHECK, _RECURSIVE, _NORMAL and _STRICT_NP. */
  datatype Kind = ErrorCheck | Recursive | Normal | Strict

  datatype Rc = OK | EBUSY | EDEADLK | EAGAIN | EPERM | ETIMEDOUT

  datatype Pc =
    | Idle(last: Rc)                        // outside the mutex functions; last: what the last call returned
    | Cas(trywait: bool, timed: bool)       // line 99
    | Busy(trywait: bool, timed: bool)      // lines 106-131
    | SelfSleep                             // lines 119-120, about to sleep
    | SelfAsleep                            // line 120, in the wait set
    | SelfAwake                             // lines 121-122
    | Spin                                  // lines 171-176
    | Cas2                                  // lines 178-187
    | Exchange                              // lines 189 and 207
    | Sleep                                 // lines 198-199, about to sleep
    | Asleep                                // line 199, in the wait set
    | Awake(timedOut: bool)                 // lines 200-202
    | SetOwner                              // lines 102, 183 and 212
    | Check                                 // lines 256-261 and 278-283
    | Recheck                               // line 269, by a thread that is not the owner
    | ClearOwner                            // line 285
    | FetchSub                              // line 288
    | Store                                 // line 289
    | Notify                                // lines 290-292
    | Aborted

  /** Beside the fields: depth[t], the calls by t that locked the mutex and that t has not undone
      yet, and holder, the thread whose compare-and-exchange or exchange found the mutex unlocked
      and that has not unlocked it. */
  datatype State = State(kind: Kind, lock: int, owner: Option<nat>, count: int, pcs: seq<Pc>,
                         depth: seq<nat>, holder: Option<nat>)

  datatype Event =
    | CallLock(t: nat, trywait: bool, timed: bool)
    | CallUnlock(t: nat)
    | Line(t: nat)                          // the thread's next access
    | Wake(t: nat, timedOut: bool)          // a sleeper wakes without a signal
    | Signal(t: nat, chosen: nat)           // lines 290-292; chosen: the sleeper picked, if any

  predicate InWaitSet(pc: Pc) { pc.Asleep? || pc.SelfAsleep? }

  predicate SomeInWaitSet(s: State) { exists u :: 0 <= u < |s.pcs| && InWaitSet(s.pcs[u]) }

  predicate Enabled(s: State, e: Event) {
    && e.t < |s.pcs| && |s.depth| == |s.pcs|
    && match e
       case CallLock(t, _, _) => s.pcs[t].Idle?
       case CallUnlock(t) => s.pcs[t].Idle?
       case Line(t) => !s.pcs[t].Idle? && !InWaitSet(s.pcs[t]) && !s.pcs[t].Notify? && !s.pcs[t].Aborted?
       case Wake(t, _) => InWaitSet(s.pcs[t])
       case Signal(t, chosen) =>
         s.pcs[t].Notify? && (SomeInWaitSet(s) ==> chosen < |s.pcs| && InWaitSet(s.pcs[chosen]))
  }

  function Move(s: State, t: nat, pc: Pc): State
    requires t < |s.pcs|
  {
    s.(pcs := s.pcs[t := pc])
  }

  /** Lines 106-131: the mutex is not free; is it ours? */
  function BusyStep(s: State, t: nat, trywait: bool, timed: bool): State
    requires t < |s.pcs| == |s.depth|
  {
    if s.owner == Some(t) then
      if s.kind != Recursive then
        if trywait then Move(s, t, Idle(EBUSY))
        else if s.kind == ErrorCheck then Move(s, t, Idle(EDEADLK))
        else if s.kind == Strict && !timed then Move(s, t, Aborted)
        else Move(s, t, SelfSleep)
      else if s.count == INT_MAX then Move(s, t, Idle(EAGAIN))
      else Move(s, t, Idle(OK)).(count := s.count + 1, depth := s.depth[t := s.depth[t] + 1])
    else Move(s, t, if trywait then Idle(EBUSY) else Spin)
  }

  /** Lines 256-261 and 278-283. */
  function CheckStep(s: State, t: nat): State
    requires t < |s.pcs| == |s.depth|
  {
    if s.owner != Some(t) then
      Move(s, t, if s.kind == ErrorCheck || s.kind == Recursive then Idle(EPERM) else Recheck)
    else if s.kind == Recursive && s.count > 0 then
      Move(s, t, Idle(OK)).(count := s.count - 1, depth := s.depth[t := if s.depth[t] > 0 then s.depth[t] - 1 else 0])
    else Move(s, t, ClearOwner)
  }

  function LineStep(s: State, t: nat): State
    requires Enabled(s, Line(t))
  {
    match s.pcs[t]
    case Cas(trywait, timed) =>
      if s.lock == UNLOCKED then Move(s, t, SetOwner).(lock := LOCKED, holder := Some(t))
      else Move(s, t, Busy(trywait, timed))
    case Busy(trywait, timed) => BusyStep(s, t, trywait, timed)
    case Spin => Move(s, t, Cas2)
    case Cas2 =>
      if s.lock == UNLOCKED then Move(s, t, SetOwner).(lock := LOCKED, holder := Some(t))
      else if s.lock != CONTENDED then Move(s, t, Exchange)
      else Move(s, t, Sleep)
    case Exchange =>
      if s.lock == UNLOCKED then Move(s, t, SetOwner).(lock := CONTENDED, holder := Some(t))
      else Move(s, t, Sleep).(lock := CONTENDED)
    case SetOwner => Move(s, t, Idle(OK)).(owner := Some(t), depth := s.depth[t := s.depth[t] + 1])
    case Check => CheckStep(s, t)
    case Recheck => Move(s, t, if s.owner == None && s.kind == Normal then Idle(OK) else Aborted)
    case ClearOwner => Move(s, t, FetchSub).(owner := None, depth := s.depth[t := 0])
    case FetchSub =>
      if s.lock == UNLOCKED + 1 then Move(s, t, Idle(OK)).(lock := s.lock - 1, holder := None)
      else Move(s, t, Store).(lock := s.lock - 1)
    case Store => Move(s, t, Notify).(lock := UNLOCKED, holder := None)
    case SelfSleep => Move(s, t, SelfAsleep)
    case SelfAwake => Move(s, t, Idle(ETIMEDOUT))
    case Sleep => Move(s, t, Asleep)
    case Awake(timedOut) => Move(s, t, if timedOut then Idle(ETIMEDOUT) else Exchange)
  }

  /** Where a sleeper is after it has been woken up. */
  function Woken(pc: Pc, timedOut: bool): Pc { if pc.SelfAsleep? then SelfAwake else Awake(timedOut) }

  function Step(s: State, e: Event): State
    requires Enabled(s, e)
  {
    match e
    case CallLock(t, trywait, timed) => Move(s, t, Cas(trywait, timed))
    case CallUnlock(t) => Move(s, t, Check)
    case Line(t) => LineStep(s, t)
    case Wake(t, timedOut) => Move(s, t, Woken(s.pcs[t], timedOut))
    case Signal(t, chosen) =>
      if SomeInWaitSet(s) then Move(Move(s, t, Idle(OK)), chosen, Woken(s.pcs[chosen], false))
      else Move(s, t, Idle(OK))
  }

  /** pthread_mutex_init. */
  predicate Init(s: State) {
    && s.lock == UNLOCKED && s.owner == None && s.count == 0 && s.holder == None && |s.depth| == |s.pcs|
    && (forall t :: 0 <= t < |s.pcs| ==> s.pcs[t] == Idle(OK) && s.depth[t] == 0)
  }

  // ---- invariants ----

  /** On the way in or out: the thread has the mutex but is not recorded as its owner. */
  predicate Passing(pc: Pc) { pc.SetOwner? || pc.FetchSub? || pc.Store? }

  /** t has locked the mutex, by its own account, and has not unlocked it. */
  predicate Inside(s: State, t: nat)
    requires t < |s.pcs| == |s.depth|
  {
    s.depth[t] > 0 || Passing(s.pcs[t])
  }

  predicate Waiting(pc: Pc) {
    pc.Spin? || pc.Cas2? || pc.Exchange? || pc.Sleep? || pc.Asleep? || pc.Awake?
  }

  ghost predicate Fits(s: State, t: nat)
    requires t < |s.pcs| == |s.depth|
  {
    && (Inside(s, t) <==> s.holder == Some(t))
    && (Passing(s.pcs[t]) ==> s.owner == None)
    && (Waiting(s.pcs[t]) || s.pcs[t].Recheck? ==> s.owner != Some(t))
    && (s.pcs[t].Recheck? ==> s.kind == Normal || s.kind == Strict)
    && (s.pcs[t].ClearOwner? ==> s.owner == Some(t) && s.count == 0)
    && s.depth[t] == if s.owner == Some(t) then s.count + 1 else 0
  }

  ghost predicate Globals(s: State) {
    && |s.depth| == |s.pcs| && 0 <= s.lock <= CONTENDED && 0 <= s.count <= INT_MAX
    && (s.holder.Some? ==> s.holder.v < |s.pcs|)
    && (s.owner.Some? ==> s.owner == s.holder)
    && (s.owner == None || s.kind != Recursive ==> s.count == 0)
    && (s.lock == UNLOCKED <==> s.holder == None)
  }

  ghost predicate Inv(s: State) {
    Globals(s) && forall t :: 0 <= t < |s.pcs| ==> Fits(s, t)
  }

  lemma InitInv(s: State)
    requires Init(s)
    ensures Inv(s)
  {
  }

  /** The accesses to lock. */
  predicate OnLock(pc: Pc) { pc.Cas? || pc.Cas2? || pc.Exchange? || pc.FetchSub? || pc.Store? }

  /** What a step of thread t keeps for t itself, */
  lemma LockGlobals(s: State, t: nat)
    requires Globals(s) && Enabled(s, Line(t)) && Fits(s, t) && OnLock(s.pcs[t])
    ensures Globals(LineStep(s, t)) && Fits(LineStep(s, t), t)
  {
  }

  lemma BusyGlobals(s: State, t: nat, trywait: bool, timed: bool)
    requires Globals(s) && t < |s.pcs| && Fits(s, t) && s.pcs[t] == Busy(trywait, timed)
    ensures |s.depth| == |s.pcs| && Globals(BusyStep(s, t, trywait, timed)) && Fits(BusyStep(s, t, trywait, timed), t)
  {
  }

  lemma CheckGlobals(s: State, t: nat)
    requires Globals(s) && t < |s.pcs| && Fits(s, t) && s.pcs[t].Check?
    ensures |s.depth| == |s.pcs| && Globals(CheckStep(s, t)) && Fits(CheckStep(s, t), t)
  {
  }

  lemma OwnerGlobals(s: State, t: nat)
    requires Globals(s) && Enabled(s, Line(t)) && Fits(s, t) && !OnLock(s.pcs[t])
    ensures Globals(LineStep(s, t)) && Fits(LineStep(s, t), t)
  {
    match s.pcs[t]
    case Busy(trywait, timed) => BusyGlobals(s, t, trywait, timed);
    case Check => CheckGlobals(s, t);
    case _ =>
  }

  lemma StepGlobals(s: State, e: Event)
    requires Inv(s) && Enabled(s, e)
    ensures Globals(Step(s, e)) && Fits(Step(s, e), e.t)
  {
    assert Fits(s, e.t);
    if e.Line? {
      if OnLock(s.pcs[e.t]) { LockGlobals(s, e.t); } else { OwnerGlobals(s, e.t); }
    }
  }

  /** and for any other thread u. */
  lemma StepOthers(s: State, e: Event, u: nat)
    requires Inv(s) && Enabled(s, e) && u < |s.pcs| && u != e.t
    ensures |Step(s, e).pcs| == |s.pcs| == |Step(s, e).depth| && Fits(Step(s, e), u)
  {
    assert Fits(s, e.t) && Fits(s, u);
    if e.Line? { LineOthers(s, e.t, u); }
  }

  lemma LineOthers(s: State, t: nat, u: nat)
    requires Globals(s) && Enabled(s, Line(t)) && u < |s.pcs| && u != t && Fits(s, t) && Fits(s, u)
    ensures |LineStep(s, t).pcs| == |s.pcs| == |LineStep(s, t).depth| && Fits(LineStep(s, t), u)
  {
    LineUntouched(s, t, u);
  }

  lemma LineUntouched(s: State, t: nat, u: nat)
    requires Enabled(s, Line(t)) && u < |s.pcs| && u != t
    ensures |LineStep(s, t).pcs| == |s.pcs| == |LineStep(s, t).depth|
    ensures LineStep(s, t).pcs[u] == s.pcs[u] && LineStep(s, t).depth[u] == s.depth[u] && LineStep(s, t).kind == s.kind
  {
  }

  lemma StepInv(s: State, e: Event)
    requires Inv(s) && Enabled(s, e)
    ensures Inv(Step(s, e))
  {
    StepGlobals(s, e);
    forall u | 0 <= u < |s.pcs| ensures |Step(s, e).pcs| == |s.pcs| == |Step(s, e).depth| && Fits(Step(s, e), u) {
      if u != e.t { StepOthers(s, e, u); }
    }
  }

  // ---- runs ----

  lemma StepKeeps()
    ensures Keeps(Step, Inv)
  {
    forall s: State, e: Event | Inv(s) && Enabled(s, e) ensures Inv(Step(s, e)) { StepInv(s, e); }
  }

  ghost predicate Reachable(s: State) {
    EndsRun(Init, Step, s)
  }

  lemma ReachableInv(s: State)
    requires Reachable(s)
    ensures Inv(s)
  {
    forall s0: State | Init(s0) ensures Inv(s0) { InitInv(s0); }
    StepKeeps();
    EndKeeps(Init, Step, Inv, s);
  }

  /** At most one thread is inside. */
  lemma MutualExclusion(s: State, t: nat, u: nat)
    requires Reachable(s) && t < |s.pcs| == |s.depth| && u < |s.pcs| && Inside(s, t) && Inside(s, u)
    ensures t == u
  {
    ReachableInv(s);
    assert Fits(s, t) && Fits(s, u);
  }

  /** The word says UNLOCKED exactly when nobody is inside, also between the subtraction of line
      288 and the store of line 289. */
  lemma LockWordExact(s: State)
    requires Reachable(s)
    ensures |s.pcs| == |s.depth|
    ensures s.lock == UNLOCKED <==> forall t :: 0 <= t < |s.pcs| ==> !Inside(s, t)
  {
    ReachableInv(s);
    if s.holder.Some? { assert Fits(s, s.holder.v); }
    forall t | 0 <= t < |s.pcs| && Inside(s, t) ensures s.holder == Some(t) { assert Fits(s, t); }
  }

  /** The recorded owner is inside, and has locked the mutex count + 1 times; a thread that is
      about to release the mutex has locked it once and leaves count at zero. */
  lemma OwnerIsInside(s: State, t: nat)
    requires Reachable(s) && t < |s.pcs| == |s.depth|
    ensures s.owner == Some(t) ==> Inside(s, t) && s.depth[t] == s.count + 1
    ensures s.depth[t] > 0 ==> s.owner == Some(t)
    ensures s.pcs[t].ClearOwner? || Passing(s.pcs[t]) ==> s.count == 0
    ensures s.pcs[t].ClearOwner? ==> s.depth[t] == 1
  {
    ReachableInv(s);
    assert Fits(s, t);
  }

  // ---- refinement of a lock ----

  /** An abstract lock, free or held; each step leaves it alone, takes it when free, or gives it
      back by its holder. */
  datatype Lock = Free | Held(t: nat)

  function Abstract(s: State): Lock {
    match s.holder
    case None => Free
    case Some(t) => Held(t)
  }

  lemma RefinesLock(s: State, e: Event)
    requires Reachable(s) && Enabled(s, e)
    ensures || Abstract(Step(s, e)) == Abstract(s)
            || (Abstract(s) == Free && Abstract(Step(s, e)) == Held(e.t) && Inside(Step(s, e), e.t))
            || (Abstract(s) == Held(e.t) && Abstract(Step(s, e)) == Free && !Inside(Step(s, e), e.t))
  {
    ReachableInv(s);
    assert Fits(s, e.t);
  }

  predicate InLockCall(pc: Pc) {
    pc.Cas? || pc.Busy? || pc.SelfSleep? || pc.SelfAsleep? || pc.SelfAwake? || Waiting(pc) || pc.SetOwner?
  }

  /** A lock call returns 0 exactly when it leaves the thread inside, one level deeper. */
  lemma LockReturn(s: State, e: Event)
    requires Reachable(s) && Enabled(s, e) && InLockCall(s.pcs[e.t]) && Step(s, e).pcs[e.t].Idle?
    ensures Step(s, e).depth[e.t] == s.depth[e.t] + Bit(Step(s, e).pcs[e.t] == Idle(OK))
    ensures Step(s, e).pcs[e.t] == Idle(OK) ==> Step(s, e).owner == Some(e.t)
    ensures Step(s, e).pcs[e.t] != Idle(OK) ==> Abstract(Step(s, e)) == Abstract(s)
  {
    ReachableInv(s);
    assert Fits(s, e.t);
  }

  // ---- what a whole lock call returns ----

  /** The compare-and-exchange takes the mutex exactly if nobody is inside. */
  lemma CasOutcome(s: State, t: nat)
    requires Reachable(s) && Enabled(s, Line(t)) && (s.pcs[t].Cas? || s.pcs[t].Cas2?)
    ensures |s.depth| == |s.pcs|
    ensures Step(s, Line(t)).pcs[t] == SetOwner <==> forall u :: 0 <= u < |s.pcs| ==> !Inside(s, u)
  {
    LockWordExact(s);
  }

  /** Lines 106-131, by the levels at which t has locked the mutex. */
  lemma BusyOutcome(s: State, t: nat, trywait: bool, timed: bool)
    requires Reachable(s) && t < |s.pcs| && s.pcs[t] == Busy(trywait, timed)
    ensures |s.depth| == |s.pcs| && Enabled(s, Line(t))
    ensures var s', d := Step(s, Line(t)), s.depth[t];
      && (d == 0 ==> s' == Move(s, t, if trywait then Idle(EBUSY) else Spin))
      && (0 < d <= INT_MAX && s.kind == Recursive ==> s'.pcs[t] == Idle(OK) && s'.depth == s.depth[t := d + 1])
      && (d > INT_MAX ==> s.kind == Recursive && s' == Move(s, t, Idle(EAGAIN)))
      && (d > 0 && s.kind != Recursive && trywait ==> s' == Move(s, t, Idle(EBUSY)))
      && (d > 0 && s.kind == ErrorCheck && !trywait ==> s' == Move(s, t, Idle(EDEADLK)))
      && (d > 0 && s.kind == Strict && !trywait && !timed ==> s' == Move(s, t, Aborted))
      && (d > 0 && (s.kind == Normal || (s.kind == Strict && timed)) && !trywait ==> s' == Move(s, t, SelfSleep))
  {
    ReachableInv(s);
    assert Fits(s, t);
  }

  /** t does not begin another call. */
  predicate NoCall(e: Event, t: nat) { e.t == t ==> !e.CallLock? && !e.CallUnlock? }

  ghost predicate NoCalls(es: seq<Event>, t: nat) { forall e :: e in es ==> NoCall(e, t) }

  /** What a thread that had locked the mutex d times may be told. */
  predicate Right(rc: Rc, kind: Kind, d: nat, trywait: bool, timed: bool) {
    if d == 0 then rc == OK || rc == (if trywait then EBUSY else ETIMEDOUT)
    else if kind == Recursive then rc == if d > INT_MAX then EAGAIN else OK
    else if trywait then rc == EBUSY
    else if kind == ErrorCheck then rc == EDEADLK
    else rc == ETIMEDOUT && !(kind == Strict && !timed)
  }

  predicate SelfWaiting(pc: Pc) { pc.SelfSleep? || pc.SelfAsleep? || pc.SelfAwake? }

  /** Where a thread is in a call that it began at depth d: one that only tries does not wait, and a
      holder waits only for itself. */
  predicate Progressing(pc: Pc, kind: Kind, d: nat, trywait: bool, timed: bool) {
    || pc == Cas(trywait, timed)
    || pc == Busy(trywait, timed)
    || (d == 0 && (pc.SetOwner? || (!trywait && Waiting(pc))))
    || (d > 0 && !trywait && (kind == Normal || (kind == Strict && timed)) && SelfWaiting(pc))
    || (d > 0 && !trywait && kind == Strict && !timed && pc.Aborted?)
  }

  ghost predicate InCall(s: State, t: nat, kind: Kind, d: nat, trywait: bool, timed: bool) {
    && Inv(s) && t < |s.pcs| && s.kind == kind
    && (|| (Progressing(s.pcs[t], kind, d, trywait, timed) && s.depth[t] == d)
        || (s.pcs[t].Idle? && Right(s.pcs[t].last, kind, d, trywait, timed)
            && s.depth[t] == d + Bit(s.pcs[t].last == OK)))
  }

  /** What the others do, t does not feel. */
  lemma OnlyOwnMoves(s: State, e: Event, t: nat)
    requires Enabled(s, e) && t < |s.pcs| && e.t != t
    ensures |Step(s, e).pcs| == |Step(s, e).depth| == |s.pcs| && Step(s, e).kind == s.kind
    ensures Step(s, e).depth[t] == s.depth[t]
    ensures || Step(s, e).pcs[t] == s.pcs[t]
            || (s.pcs[t].Asleep? && Step(s, e).pcs[t] == Awake(false))
            || (s.pcs[t].SelfAsleep? && Step(s, e).pcs[t].SelfAwake?)
  {
    if e.Line? { LineUntouched(s, e.t, t); }
  }

  lemma InCallLine(s: State, t: nat, kind: Kind, d: nat, trywait: bool, timed: bool)
    requires InCall(s, t, kind, d, trywait, timed) && Enabled(s, Line(t))
    ensures Inv(LineStep(s, t)) ==> InCall(LineStep(s, t), t, kind, d, trywait, timed)
  {
    assert Fits(s, t);
  }

  lemma InCallStep(s: State, e: Event, t: nat, kind: Kind, d: nat, trywait: bool, timed: bool)
    requires InCall(s, t, kind, d, trywait, timed) && Enabled(s, e) && NoCall(e, t)
    ensures InCall(Step(s, e), t, kind, d, trywait, timed)
  {
    StepInv(s, e);
    if e.t != t {
      OnlyOwnMoves(s, e, t);
    } else if e.Line? {
      InCallLine(s, t, kind, d, trywait, timed);
    }
  }

  lemma CallRuns(s: State, t: nat, trywait: bool, timed: bool, es: seq<Event>)
    requires Reachable(s) && Enabled(s, CallLock(t, trywait, timed))
    requires AllEnabled(Step, Step(s, CallLock(t, trywait, timed)), es) && NoCalls(es, t)
    ensures InCall(Final(Step, Step(s, CallLock(t, trywait, timed)), es), t, s.kind, s.depth[t], trywait, timed)
  {
    var s1, kind, d := Step(s, CallLock(t, trywait, timed)), s.kind, s.depth[t];
    ReachableInv(s);
    StepInv(s, CallLock(t, trywait, timed));
    var inv, mine := (x: State) => InCall(x, t, kind, d, trywait, timed), (e: Event) => NoCall(e, t);
    forall x: State, e: Event | inv(x) && mine(e) && Enabled(x, e) ensures inv(Step(x, e)) {
      InCallStep(x, e, t, kind, d, trywait, timed);
    }
    RunKeepsUnder(Step, inv, mine, s1, es);
  }

  /** pthread_mutex_trylock never waits, in any run. */
  lemma TrylockNeverWaits(s: State, t: nat, timed: bool, es: seq<Event>)
    requires Reachable(s) && Enabled(s, CallLock(t, true, timed))
    requires AllEnabled(Step, Step(s, CallLock(t, true, timed)), es) && NoCalls(es, t)
    ensures var end := Final(Step, Step(s, CallLock(t, true, timed)), es);
      && t < |end.pcs| && !Waiting(end.pcs[t]) && !SelfWaiting(end.pcs[t]) && end.pcs[t] != Aborted
      && (end.pcs[t].Idle? ==> end.pcs[t].last == OK || end.pcs[t].last == EBUSY || end.pcs[t].last == EAGAIN)
  {
    CallRuns(s, t, true, timed, es);
  }

  /** What a lock call returns, over the whole call and whatever the others do, by the kind of the
      mutex and the levels d at which t had locked it. */
  lemma LockResult(s: State, t: nat, trywait: bool, timed: bool, es: seq<Event>)
    requires Reachable(s) && Enabled(s, CallLock(t, trywait, timed))
    requires AllEnabled(Step, Step(s, CallLock(t, trywait, timed)), es) && NoCalls(es, t)
    requires var end := Final(Step, Step(s, CallLock(t, trywait, timed)), es); t < |end.pcs| && end.pcs[t].Idle?
    ensures var end := Final(Step, Step(s, CallLock(t, trywait, timed)), es);
      var rc, d, recursive := end.pcs[t].last, s.depth[t], s.kind == Recursive;
      && |end.depth| == |end.pcs| && end.depth[t] == d + Bit(rc == OK)
      && (rc == EAGAIN <==> recursive && d > INT_MAX)
      && (rc == EDEADLK <==> d > 0 && s.kind == ErrorCheck && !trywait)
      && (rc == EBUSY <==> trywait && rc != OK && rc != EAGAIN)
      && (d > 0 ==> (rc == OK <==> recursive && d <= INT_MAX))
      && (d > 0 ==> (rc == ETIMEDOUT <==> !trywait && (s.kind == Normal || s.kind == Strict)))
      && (d == 0 ==> (rc == ETIMEDOUT <==> Wake(t, true) in es))
      && rc != EPERM
  {
    CallRuns(s, t, trywait, timed, es);
    if s.depth[t] == 0 {
      var s1 := Step(s, CallLock(t, trywait, timed));
      if Wake(t, true) in es {
        TimedOutInRun(s, t, trywait, timed, es);
      } else {
        CallRuns(s, t, trywait, timed, []);
        NeverTimedOut(s1, t, s.kind, trywait, timed, es);
      }
    }
  }

  ghost predicate TimedOut(s: State, t: nat) {
    t < |s.pcs| && (s.pcs[t] == Awake(true) || s.pcs[t] == Idle(ETIMEDOUT))
  }

  /** A sleeper that has timed out does not wait again: its next step returns ETIMEDOUT. */
  lemma TimedOutReturns(s: State, t: nat, es: seq<Event>)
    requires t < |s.pcs| && s.pcs[t] == Awake(true) && AllEnabled(Step, s, es) && NoCalls(es, t)
    ensures TimedOut(Final(Step, s, es), t)
    ensures Enabled(s, Line(t)) ==> Step(s, Line(t)).pcs[t] == Idle(ETIMEDOUT)
  {
    var inv, mine := (x: State) => TimedOut(x, t), (e: Event) => NoCall(e, t);
    forall x: State, e: Event | inv(x) && mine(e) && Enabled(x, e) ensures inv(Step(x, e)) {
      if e.t != t { OnlyOwnMoves(x, e, t); }
    }
    RunKeepsUnder(Step, inv, mine, s, es);
  }

  lemma TimedOutInRun(s: State, t: nat, trywait: bool, timed: bool, es: seq<Event>)
    requires Reachable(s) && Enabled(s, CallLock(t, trywait, timed)) && s.depth[t] == 0
    requires AllEnabled(Step, Step(s, CallLock(t, trywait, timed)), es) && NoCalls(es, t) && Wake(t, true) in es
    ensures TimedOut(Final(Step, Step(s, CallLock(t, trywait, timed)), es), t)
  {
    var i :| 0 <= i < |es| && es[i] == Wake(t, true);
    var s1 := RunSplit(Step, Step(s, CallLock(t, trywait, timed)), es, i);
    CallRuns(s, t, trywait, timed, es[..i]);
    TimedOutReturns(Step(s1, es[i]), t, es[i + 1..]);
  }

  ghost predicate Untimed(s: State, t: nat, kind: Kind, trywait: bool, timed: bool) {
    InCall(s, t, kind, 0, trywait, timed) && s.pcs[t] != Awake(true) && s.pcs[t] != Idle(ETIMEDOUT)
  }

  lemma UntimedStep(s: State, e: Event, t: nat, kind: Kind, trywait: bool, timed: bool)
    requires Untimed(s, t, kind, trywait, timed) && Enabled(s, e) && NoCall(e, t) && e != Wake(t, true)
    ensures Untimed(Step(s, e), t, kind, trywait, timed)
  {
    InCallStep(s, e, t, kind, 0, trywait, timed);
    if e.t != t { OnlyOwnMoves(s, e, t); } else if e.Line? { UntimedLine(s, t, kind, trywait, timed); }
  }

  lemma UntimedLine(s: State, t: nat, kind: Kind, trywait: bool, timed: bool)
    requires Untimed(s, t, kind, trywait, timed) && Enabled(s, Line(t))
    ensures |LineStep(s, t).pcs| == |s.pcs|
    ensures LineStep(s, t).pcs[t] != Awake(true) && LineStep(s, t).pcs[t] != Idle(ETIMEDOUT)
  {
  }

  lemma NeverTimedOut(s: State, t: nat, kind: Kind, trywait: bool, timed: bool, es: seq<Event>)
    requires Untimed(s, t, kind, trywait, timed) && AllEnabled(Step, s, es) && NoCalls(es, t) && Wake(t, true) !in es
    ensures Untimed(Final(Step, s, es), t, kind, trywait, timed)
  {
    var inv := (x: State) => Untimed(x, t, kind, trywait, timed);
    var other := (e: Event) => NoCall(e, t) && e != Wake(t, true);
    forall x: State, e: Event | inv(x) && other(e) && Enabled(x, e) ensures inv(Step(x, e)) {
      UntimedStep(x, e, t, kind, trywait, timed);
    }
    RunKeepsUnder(Step, inv, other, s, es);
  }

  // ---- unlocking ----

  /** What line 256 makes of unlocking: a thread that is not inside changes nothing, one that has
      locked the mutex several times undoes one of them, and only the last level releases it. */
  lemma UnlockOutcome(s: State, t: nat)
    requires Reachable(s) && Enabled(s, Line(t)) && s.pcs[t].Check?
    ensures |s.depth| == |s.pcs|
    ensures s.depth[t] == 0 ==>
      Step(s, Line(t)) == Move(s, t, if s.kind == ErrorCheck || s.kind == Recursive then Idle(EPERM) else Recheck)
    ensures s.depth[t] > 1 ==> Step(s, Line(t)).pcs[t] == Idle(OK) && Step(s, Line(t)).depth[t] == s.depth[t] - 1
                               && Abstract(Step(s, Line(t))) == Held(t)
    ensures s.depth[t] == 1 ==> Step(s, Line(t)).pcs[t] == ClearOwner
  {
    ReachableInv(s);
    assert Fits(s, t);
  }

  /** Line 269 reads the owner again.  The thread has not locked the mutex, and whether it returns 0
      or aborts depends on the owner at this later moment: 0 exactly for a NORMAL mutex that nobody
      has finished locking. */
  lemma MisuseOutcome(s: State, t: nat)
    requires Reachable(s) && Enabled(s, Line(t)) && s.pcs[t].Recheck?
    ensures |s.depth| == |s.pcs| && s.depth[t] == 0 && (s.kind == Normal || s.kind == Strict)
    ensures Step(s, Line(t)) == Move(s, t, if s.kind == Normal && (forall u :: 0 <= u < |s.depth| ==> s.depth[u] == 0)
                                           then Idle(OK) else Aborted)
  {
    ReachableInv(s);
    assert Fits(s, t);
    forall u | 0 <= u < |s.pcs| ensures s.depth[u] == if s.owner == Some(u) then s.count + 1 else 0 {
      assert Fits(s, u);
    }
  }

  /** Where a thread is in an unlock call that it began at depth d. */
  predicate Unlocking(pc: Pc, kind: Kind, d: nat) {
    || pc.Check?
    || (pc.Recheck? && d == 0 && (kind == Normal || kind == Strict))
    || (pc.ClearOwner? && d == 1)
    || (pc.Aborted? && d == 0 && (kind == Normal || kind == Strict))
  }

  predicate Releasing(pc: Pc) { pc.FetchSub? || pc.Store? || pc.Notify? }

  ghost predicate InUnlock(s: State, t: nat, kind: Kind, d: nat) {
    && Inv(s) && t < |s.pcs| && s.kind == kind
    && (|| (Unlocking(s.pcs[t], kind, d) && s.depth[t] == d)
        || (Releasing(s.pcs[t]) && d == 1 && s.depth[t] == 0)
        || (s.pcs[t].Idle? && s.depth[t] == (if d == 0 then 0 else d - 1) && (d > 1 ==> kind == Recursive)
            && (d == 1 ==> s.holder != Some(t))
            && s.pcs[t].last == if d == 0 && (kind == ErrorCheck || kind == Recursive) then EPERM else OK))
  }

  lemma InUnlockLine(s: State, t: nat, kind: Kind, d: nat)
    requires InUnlock(s, t, kind, d) && Enabled(s, Line(t))
    ensures Inv(LineStep(s, t)) ==> InUnlock(LineStep(s, t), t, kind, d)
  {
    assert Fits(s, t);
  }

  lemma InUnlockStep(s: State, e: Event, t: nat, kind: Kind, d: nat)
    requires InUnlock(s, t, kind, d) && Enabled(s, e) && NoCall(e, t)
    ensures InUnlock(Step(s, e), t, kind, d)
  {
    StepInv(s, e);
    assert Fits(s, t) && Fits(Step(s, e), t);
    if e.t != t {
      OnlyOwnMoves(s, e, t);
    } else if e.Line? {
      InUnlockLine(s, t, kind, d);
    }
  }

  /** What an unlock call does and returns, over the whole call and whatever the others do, by the
      kind of the mutex and the levels d at which t had locked it: EPERM, or an abort, exactly for a
      thread that is not inside; otherwise 0, one level less, and the mutex given back with the last. */
  lemma UnlockResult(s: State, t: nat, es: seq<Event>)
    requires Reachable(s) && Enabled(s, CallUnlock(t))
    requires AllEnabled(Step, Step(s, CallUnlock(t)), es) && NoCalls(es, t)
    ensures var end := Final(Step, Step(s, CallUnlock(t)), es);
      var d, checked := s.depth[t], s.kind == ErrorCheck || s.kind == Recursive;
      && t < |end.pcs| == |end.depth|
      && (end.pcs[t].Aborted? ==> d == 0 && !checked)
      && (end.pcs[t].Idle? ==>
            && end.pcs[t].last == (if d == 0 && checked then EPERM else OK)
            && end.depth[t] == (if d == 0 then 0 else d - 1)
            && (d > 0 ==> (Abstract(end) == Held(t) <==> d > 1)))
  {
    var s1, kind, d := Step(s, CallUnlock(t)), s.kind, s.depth[t];
    ReachableInv(s);
    StepInv(s, CallUnlock(t));
    var inv, mine := (x: State) => InUnlock(x, t, kind, d), (e: Event) => NoCall(e, t);
    forall x: State, e: Event | inv(x) && mine(e) && Enabled(x, e) ensures inv(Step(x, e)) {
      InUnlockStep(x, e, t, kind, d);
    }
    RunKeepsUnder(Step, inv, mine, s1, es);
    assert Fits(Final(Step, s1, es), t);
  }

  // ---- lost wake-ups ----

  /** Bound to signal, or to set lock to CONTENDED again. */
  predicate Pending(pc: Pc) { pc.Store? || pc.Notify? || pc.Exchange? || pc == Awake(false) }

  /** Whoever decides to sleep has found or made the word CONTENDED, and has not got the mutex. */
  lemma SleepsMarked(s: State, t: nat)
    requires Reachable(s) && Enabled(s, Line(t)) && Step(s, Line(t)).pcs[t].Sleep?
    ensures Step(s, Line(t)).lock == CONTENDED && s.lock != UNLOCKED && Abstract(Step(s, Line(t))) == Abstract(s)
  {
    ReachableInv(s);
    assert Fits(s, t);
  }

  ghost predicate SomePending(s: State) { exists u :: 0 <= u < |s.pcs| && Pending(s.pcs[u]) }

  ghost predicate SomeAsleep(s: State) { exists u :: 0 <= u < |s.pcs| && s.pcs[u].Asleep? }

  /** While a thread sleeps for the mutex, unlocking will signal, or somebody is about to see to it. */
  ghost predicate Remembered(s: State) {
    SomeAsleep(s) ==> s.lock == CONTENDED || SomePending(s)
  }

  /** A thread goes to sleep after the word it has marked CONTENDED was overwritten and signalled,
      or the signal goes to a thread that deadlocked with itself. */
  ghost predicate Forgets(s: State, e: Event)
    requires Enabled(s, e)
  {
    && s.lock != CONTENDED
    && match e
       case Line(t) => s.pcs[t].Sleep? && !SomePending(s)
       case Signal(t, chosen) =>
         && SomeAsleep(s) && s.pcs[chosen].SelfAsleep?
         && forall u :: 0 <= u < |s.pcs| && u != t ==> !Pending(s.pcs[u])
       case _ => false
  }

  /** Exactly the steps after which a sleeper is forgotten. */
  lemma ForgetsExactly(s: State, e: Event)
    requires Reachable(s) && Remembered(s) && Enabled(s, e)
    ensures !Remembered(Step(s, e)) <==> Forgets(s, e)
  {
    ReachableInv(s);
    match e
    case Line(t) => if s.pcs[t].Sleep? { SleepForgets(s, t); } else { LineRemembers(s, t); }
    case Signal(t, chosen) => SignalForgets(s, t, chosen);
    case _ => MoveRemembers(s, e);
  }

  lemma MoveRemembers(s: State, e: Event)
    requires Remembered(s) && Enabled(s, e) && (e.CallLock? || e.CallUnlock? || e.Wake?)
    ensures Remembered(Step(s, e))
  {
    PendingKept(s, Step(s, e), e.t);
  }

  /** What another thread is about to do, it still is. */
  lemma PendingKept(s: State, s': State, t: nat)
    requires t < |s.pcs| == |s'.pcs| && s'.pcs == s.pcs[t := s'.pcs[t]]
    ensures SomePending(s) && !Pending(s.pcs[t]) ==> SomePending(s')
    ensures Pending(s'.pcs[t]) ==> SomePending(s')
    ensures SomeAsleep(s') && !s'.pcs[t].Asleep? ==> SomeAsleep(s)
  {
    if u :| 0 <= u < |s.pcs| && Pending(s.pcs[u]) && u != t { assert Pending(s'.pcs[u]); }
    if u :| 0 <= u < |s'.pcs| && s'.pcs[u].Asleep? && u != t { assert s.pcs[u].Asleep?; }
  }

  lemma LineRemembers(s: State, t: nat)
    requires Inv(s) && Remembered(s) && Enabled(s, Line(t)) && !s.pcs[t].Sleep?
    ensures Remembered(LineStep(s, t))
  {
    LineMoves(s, t);
    PendingKept(s, LineStep(s, t), t);
    PendingLine(s, t);
  }

  lemma LineMoves(s: State, t: nat)
    requires Enabled(s, Line(t))
    ensures |LineStep(s, t).pcs| == |s.pcs| && LineStep(s, t).pcs == s.pcs[t := LineStep(s, t).pcs[t]]
    ensures LineStep(s, t).pcs[t].Asleep? ==> s.pcs[t].Sleep?
  {
  }

  /** lock stops being CONTENDED only in favour of somebody pending, who goes on or sets it again. */
  lemma PendingLine(s: State, t: nat)
    requires Enabled(s, Line(t)) && 0 <= s.lock <= CONTENDED
    ensures Pending(s.pcs[t]) || s.lock == CONTENDED ==>
              LineStep(s, t).lock == CONTENDED || Pending(LineStep(s, t).pcs[t])
  {
  }

  lemma SleepForgets(s: State, t: nat)
    requires Remembered(s) && Enabled(s, Line(t)) && s.pcs[t].Sleep?
    ensures !Remembered(LineStep(s, t)) <==> Forgets(s, Line(t))
  {
    var s' := LineStep(s, t);
    assert s'.pcs[t].Asleep?;
    PendingKept(s, s', t);
    PendingKept(s', s, t);
    LineMoves(s, t);
    assert s.pcs == s'.pcs[t := s.pcs[t]];
  }

  lemma SignalForgets(s: State, t: nat, chosen: nat)
    requires Remembered(s) && Enabled(s, Signal(t, chosen))
    ensures !Remembered(Step(s, Signal(t, chosen))) <==> Forgets(s, Signal(t, chosen))
  {
    var s' := Step(s, Signal(t, chosen));
    if !SomeInWaitSet(s) {
      assert !SomeAsleep(s) && !SomeAsleep(s');
    } else {
      assert s'.pcs == s.pcs[t := Idle(OK)][chosen := Woken(s.pcs[chosen], false)];
      if s.pcs[chosen].Asleep? {
        assert Pending(s'.pcs[chosen]);
      } else {
        forall u | 0 <= u < |s.pcs| && u != t ensures Pending(s'.pcs[u]) == Pending(s.pcs[u]) {}
        forall u | 0 <= u < |s.pcs| ensures s'.pcs[u].Asleep? == s.pcs[u].Asleep? {}
        assert SomeAsleep(s') <==> SomeAsleep(s);
      }
    }
  }

  // If all threads but one sleep, that one wakes none of them.

  ghost predicate OthersAsleep(s: State, u: nat) {
    u < |s.pcs| && forall v :: 0 <= v < |s.pcs| && v != u ==> s.pcs[v].Asleep?
  }

  predicate NotWake(e: Event) { !e.Wake? }

  ghost predicate Abandoned(s: State, u: nat) {
    Inv(s) && SomeAsleep(s) && OthersAsleep(s, u) && s.lock != CONTENDED && !Pending(s.pcs[u])
  }

  lemma AbandonedStep(s: State, e: Event, u: nat)
    requires Abandoned(s, u) && Enabled(s, e) && NotWake(e)
    ensures Abandoned(Step(s, e), u)
  {
    StepInv(s, e);
    assert e.t == u;
    assert Fits(s, u);
    forall v | 0 <= v < |s.pcs| && v != u ensures s.holder != Some(v) { assert Fits(s, v); }
    if e.Line? { LineMoves(s, u); }
    var v :| 0 <= v < |s.pcs| && s.pcs[v].Asleep?;
    assert v != u && Step(s, e).pcs[v].Asleep?;
  }

  /** With two threads a forgotten sleeper sleeps until it wakes up unasked, whatever the other one
      does; and so it is with more, as long as all but one sleep. */
  lemma ForgottenForever(s: State, u: nat, es: seq<Event>)
    requires Reachable(s) && !Remembered(s) && OthersAsleep(s, u)
    requires AllEnabled(Step, s, es) && forall e :: e in es ==> NotWake(e)
    ensures OthersAsleep(Final(Step, s, es), u) && !Remembered(Final(Step, s, es))
  {
    ReachableInv(s);
    var inv := (x: State) => Abandoned(x, u);
    forall x: State, e: Event | inv(x) && NotWake(e) && Enabled(x, e) ensures inv(Step(x, e)) {
      AbandonedStep(x, e, u);
    }
    RunKeepsUnder(Step, inv, NotWake, s, es);
  }

  // One thread alone never waits for the mutex.

  ghost predicate Alone(s: State) {
    && Inv(s) && |s.pcs| <= 1
    && forall t :: 0 <= t < |s.pcs| ==> !Waiting(s.pcs[t]) && (s.pcs[t].Busy? ==> s.owner == Some(t))
  }

  lemma AloneStep(s: State, e: Event)
    requires Alone(s) && Enabled(s, e)
    ensures Alone(Step(s, e))
  {
    StepInv(s, e);
    assert Fits(s, e.t);
  }

  // A run that forgets a sleeper.

  /** Threads 0 and 1 at a and b, everybody else outside. */
  ghost function Slots(n: nat, a: Pc, b: Pc): seq<Pc> {
    seq(n, i => if i == 0 then a else if i == 1 then b else Idle(OK))
  }

  ghost function Depths(n: nat, d: nat): seq<nat> { seq(n, i => if i == 0 then d else 0) }

  ghost function Duo(kind: Kind, n: nat, a: Pc, b: Pc, lock: int, owner: Option<nat>, holder: Option<nat>): State {
    State(kind, lock, owner, 0, Slots(n, a, b), Depths(n, if owner == Some(0) then 1 else 0), holder)
  }

  ghost predicate Goes(s: State, e: Event, s': State) { Enabled(s, e) && Step(s, e) == s' }

  lemma SlotsMove(n: nat)
    requires n >= 2
    ensures forall a: Pc, b: Pc, c: Pc :: Slots(n, a, b)[0 := c] == Slots(n, c, b)
    ensures forall a: Pc, b: Pc, c: Pc :: Slots(n, a, b)[1 := c] == Slots(n, a, c)
    ensures forall d: nat, d': nat :: Depths(n, d)[0 := d'] == Depths(n, d')
    ensures forall a: Pc, b: Pc :: Slots(n, a, b)[0] == a && Slots(n, a, b)[1] == b && |Slots(n, a, b)| == n
    ensures forall d: nat :: Depths(n, d)[0] == d && |Depths(n, d)| == n
  {
  }

  /** Thread 0 locks the mutex. */
  lemma FirstLocks(kind: Kind, n: nat) returns (es: seq<Event>)
    requires n >= 2
    ensures var s := Duo(kind, n, Idle(OK), Idle(OK), UNLOCKED, None, None);
      && AllEnabled(Step, s, es) && (forall e :: e in es ==> NotWake(e))
      && Final(Step, s, es) == Duo(kind, n, Idle(OK), Idle(OK), LOCKED, Some(0), Some(0))
  {
    SlotsMove(n);
    es := [CallLock(0, false, false), Line(0), Line(0)];
    var ss := [Duo(kind, n, Idle(OK), Idle(OK), UNLOCKED, None, None),
               Duo(kind, n, Cas(false, false), Idle(OK), UNLOCKED, None, None),
               Duo(kind, n, SetOwner, Idle(OK), LOCKED, None, Some(0)),
               Duo(kind, n, Idle(OK), Idle(OK), LOCKED, Some(0), Some(0))];
    assert Goes(ss[0], es[0], ss[1]);
    assert Goes(ss[1], es[1], ss[2]);
    assert Goes(ss[2], es[2], ss[3]);
    RunThrough(Step, es, ss);
  }

  /** Thread 1 marks the word and is about to sleep. */
  lemma SecondWaits(kind: Kind, n: nat) returns (es: seq<Event>)
    requires n >= 2
    ensures var s := Duo(kind, n, Idle(OK), Idle(OK), LOCKED, Some(0), Some(0));
      && AllEnabled(Step, s, es) && (forall e :: e in es ==> NotWake(e))
      && Final(Step, s, es) == Duo(kind, n, Idle(OK), Sleep, CONTENDED, Some(0), Some(0))
  {
    SlotsMove(n);
    es := [CallLock(1, false, false), Line(1), Line(1), Line(1), Line(1), Line(1)];
    var ss := [Duo(kind, n, Idle(OK), Idle(OK), LOCKED, Some(0), Some(0)),
               Duo(kind, n, Idle(OK), Cas(false, false), LOCKED, Some(0), Some(0)),
               Duo(kind, n, Idle(OK), Busy(false, false), LOCKED, Some(0), Some(0)),
               Duo(kind, n, Idle(OK), Spin, LOCKED, Some(0), Some(0)),
               Duo(kind, n, Idle(OK), Cas2, LOCKED, Some(0), Some(0)),
               Duo(kind, n, Idle(OK), Exchange, LOCKED, Some(0), Some(0)),
               Duo(kind, n, Idle(OK), Sleep, CONTENDED, Some(0), Some(0))];
    assert Goes(ss[0], es[0], ss[1]);
    assert Goes(ss[1], es[1], ss[2]);
    assert Goes(ss[2], es[2], ss[3]);
    assert Goes(ss[3], es[3], ss[4]);
    assert Goes(ss[4], es[4], ss[5]);
    assert Goes(ss[5], es[5], ss[6]);
    RunThrough(Step, es, ss);
  }

  /** Thread 0 unlocks the mutex; its signal finds nobody, and then 1 goes to sleep. */
  lemma SignalFindsNobody(kind: Kind, n: nat) returns (es: seq<Event>)
    requires n >= 2
    ensures var s := Duo(kind, n, Idle(OK), Sleep, CONTENDED, Some(0), Some(0));
      && AllEnabled(Step, s, es) && (forall e :: e in es ==> NotWake(e))
      && Final(Step, s, es) == Duo(kind, n, Idle(OK), Asleep, UNLOCKED, None, None)
  {
    SlotsMove(n);
    es := [CallUnlock(0), Line(0), Line(0), Line(0), Line(0), Signal(0, 0), Line(1)];
    var ss := [Duo(kind, n, Idle(OK), Sleep, CONTENDED, Some(0), Some(0)),
               Duo(kind, n, Check, Sleep, CONTENDED, Some(0), Some(0)),
               Duo(kind, n, ClearOwner, Sleep, CONTENDED, Some(0), Some(0)),
               Duo(kind, n, FetchSub, Sleep, CONTENDED, None, Some(0)),
               Duo(kind, n, Store, Sleep, LOCKED, None, Some(0)),
               Duo(kind, n, Notify, Sleep, UNLOCKED, None, None),
               Duo(kind, n, Idle(OK), Sleep, UNLOCKED, None, None),
               Duo(kind, n, Idle(OK), Asleep, UNLOCKED, None, None)];
    assert Goes(ss[0], es[0], ss[1]);
    assert Goes(ss[1], es[1], ss[2]);
    assert Goes(ss[2], es[2], ss[3]);
    assert Goes(ss[3], es[3], ss[4]);
    assert Goes(ss[4], es[4], ss[5]);
    assert Goes(ss[5], es[5], ss[6]);
    assert Goes(ss[6], es[6], ss[7]);
    RunThrough(Step, es, ss);
  }

  /** A run without waking up unasked, after which 1 sleeps, the mutex is free and everybody else is
      outside. */
  lemma WakeupLost(kind: Kind, threads: nat) returns (s0: State, es: seq<Event>, s: State)
    requires threads >= 2
    ensures Init(s0) && s0.kind == kind && |s0.pcs| == |s.pcs| == threads
    ensures AllEnabled(Step, s0, es) && (forall e :: e in es ==> NotWake(e)) && Final(Step, s0, es) == s
    ensures s.lock == UNLOCKED && s.pcs[1] == Asleep
    ensures forall t :: 0 <= t < threads && t != 1 ==> s.pcs[t] == Idle(OK)
    ensures !Remembered(s)
  {
    s0 := Duo(kind, threads, Idle(OK), Idle(OK), UNLOCKED, None, None);
    s := Duo(kind, threads, Idle(OK), Asleep, UNLOCKED, None, None);
    var es1 := FirstLocks(kind, threads);
    var es2 := SecondWaits(kind, threads);
    var es3 := SignalFindsNobody(kind, threads);
    RunAppend(Step, Final(Step, s0, es1), es2, es3);
    RunAppend(Step, s0, es1, es2 + es3);
    es := es1 + (es2 + es3);
    assert s.pcs[1].Asleep?;
  }

  ghost predicate Loses(s0: State, es: seq<Event>) {
    Init(s0) && AllEnabled(Step, s0, es) && (forall e :: e in es ==> NotWake(e)) && !Remembered(Final(Step, s0, es))
  }

  /** For every kind of mutex a sleeper can be forgotten if and only if there are two threads. */
  lemma LosesExactly(kind: Kind, threads: nat)
    ensures (exists s0: State, es: seq<Event> :: s0.kind == kind && |s0.pcs| == threads && Loses(s0, es))
            <==> threads >= 2
  {
    if threads >= 2 {
      var s0, es, s := WakeupLost(kind, threads);
      assert Loses(s0, es);
    }
    forall s0: State, es: seq<Event> | |s0.pcs| == threads && Loses(s0, es) ensures threads >= 2 {
      if threads < 2 { AloneNeverWaits(s0, es); }
    }
  }

  lemma AloneNeverWaits(s0: State, es: seq<Event>)
    requires Init(s0) && |s0.pcs| <= 1 && AllEnabled(Step, s0, es)
    ensures Alone(Final(Step, s0, es))
  {
    InitInv(s0);
    forall x: State, e: Event | Alone(x) && Enabled(x, e) ensures Alone(Step(x, e)) { AloneStep(x, e); }
    RunKeeps(Step, Alone, s0, es);
  }

  // ---- the accesses themselves ----

  /** struct pthread_mutex; each method is one access with the code that follows it up to the next
      one. */
  class Mutex {
    const kind: Kind
    var lock: int
    var owner: Option<nat>
    var count: int
    ghost var view: State

    ghost predicate Valid()
      reads this
    {
      kind == view.kind && lock == view.lock && owner == view.owner && count == view.count && Inv(view)
    }

    /** pthread_mutex_init. */
    constructor (k: Kind, threads: nat)
      ensures Valid() && Init(view) && kind == k && |view.pcs| == threads
    {
      kind := k;
      lock, owner, count := UNLOCKED, None, 0;
      view := State(k, UNLOCKED, None, 0, seq(threads, i => Idle(OK)), seq(threads, i => 0), None);
    }

    /** Lines 99 and 178-179. */
    method CompareExchange(t: nat) returns (ok: bool)
      requires Valid() && Enabled(view, Line(t)) && (view.pcs[t].Cas? || view.pcs[t].Cas2?)
      modifies this
      ensures Valid() && view == Step(old(view), Line(t)) && (ok <==> view.pcs[t].SetOwner?)
    {
      StepInv(view, Line(t));
      view := Step(view, Line(t));
      ok := lock == UNLOCKED;
      if ok { lock := LOCKED; }
    }

    /** Lines 106-131; None: the call does not return here. */
    method AlreadyOwner(t: nat, trywait: bool, timed: bool) returns (error: Option<Rc>)
      requires Valid() && Enabled(view, Line(t)) && view.pcs[t] == Busy(trywait, timed)
      modifies this
      ensures Valid() && view == Step(old(view), Line(t))
      ensures error == if view.pcs[t].Idle? then Some(view.pcs[t].last) else None
      ensures |old(view).depth| == |old(view).pcs|
      ensures var d := old(view).depth[t];
        && (error == Some(EBUSY) <==> trywait && (d == 0 || kind != Recursive))
        && (error == Some(EDEADLK) <==> !trywait && d > 0 && kind == ErrorCheck)
        && (error == Some(EAGAIN) <==> kind == Recursive && d > INT_MAX)
        && (error == Some(OK) <==> kind == Recursive && 0 < d <= INT_MAX)
        && (view.pcs[t].Aborted? <==> !trywait && !timed && d > 0 && kind == Strict)
      ensures owner == old(owner) && lock == old(lock) && count == old(count) + Bit(error == Some(OK))
    {
      assert Fits(view, t);
      StepInv(view, Line(t));
      view := Step(view, Line(t));
      if owner == Some(t) {
        if kind != Recursive {
          if trywait || kind == ErrorCheck { return Some(if trywait then EBUSY else EDEADLK); }
          return None;   // abort() or wait for a timeout
        } else {
          if count == INT_MAX { return Some(EAGAIN); }
          count := count + 1;
          return Some(OK);
        }
      }
      error := if trywait then Some(EBUSY) else None;
    }

    /** Lines 189 and 207. */
    method TakeContended(t: nat) returns (was: int)
      requires Valid() && Enabled(view, Line(t)) && view.pcs[t].Exchange?
      modifies this
      ensures Valid() && view == Step(old(view), Line(t)) && (was == UNLOCKED <==> view.pcs[t].SetOwner?)
    {
      StepInv(view, Line(t));
      view := Step(view, Line(t));
      was := lock;
      lock := CONTENDED;
    }

    /** Lines 200-202, after waking up; None: goes on with the exchange. */
    method AfterSleep(t: nat, timedOut: bool) returns (error: Option<Rc>)
      requires Valid() && Enabled(view, Line(t)) && view.pcs[t] == Awake(timedOut)
      modifies this`view
      ensures Valid() && view == Step(old(view), Line(t))
      ensures error == if timedOut then Some(ETIMEDOUT) else None
      ensures view.pcs[t] == if timedOut then Idle(ETIMEDOUT) else Exchange
    {
      StepInv(view, Line(t));
      view := Step(view, Line(t));
      error := if timedOut then Some(ETIMEDOUT) else None;
    }

    /** Lines 102, 183 and 212. */
    method BecomeOwner(t: nat)
      requires Valid() && Enabled(view, Line(t)) && view.pcs[t].SetOwner?
      modifies this
      ensures Valid() && view == Step(old(view), Line(t)) && owner == Some(t) && count == 0
    {
      assert Fits(view, t);
      StepInv(view, Line(t));
      view := Step(view, Line(t));
      owner := Some(t);
    }

    /** pthread_mutex_unlock, lines 256-261 and 278-283; None: goes on. */
    method UnlockCheck(t: nat) returns (error: Option<Rc>)
      requires Valid() && Enabled(view, Line(t)) && view.pcs[t].Check?
      modifies this
      ensures Valid() && view == Step(old(view), Line(t))
      ensures error == if view.pcs[t].Idle? then Some(view.pcs[t].last) else None
    {
      StepInv(view, Line(t));
      view := Step(view, Line(t));
      if owner != Some(t) {
        if kind == ErrorCheck || kind == Recursive { return Some(EPERM); }
        return None;
      }
      if kind == Recursive {
        if count > 0 {
          count := count - 1;
          return Some(OK);
        }
      }
      error := None;
    }

    /** Lines 269-273; None: abort(). */
    method UnlockRecheck(t: nat) returns (error: Option<Rc>)
      requires Valid() && Enabled(view, Line(t)) && view.pcs[t].Recheck?
      modifies this`view
      ensures Valid() && view == Step(old(view), Line(t))
      ensures error == if view.pcs[t].Idle? then Some(view.pcs[t].last) else None
    {
      StepInv(view, Line(t));
      view := Step(view, Line(t));
      error := if owner == None && kind == Normal then Some(OK) else None;
    }

    /** Line 285. */
    method GiveUpOwnership(t: nat)
      requires Valid() && Enabled(view, Line(t)) && view.pcs[t].ClearOwner?
      modifies this
      ensures Valid() && view == Step(old(view), Line(t))
    {
      StepInv(view, Line(t));
      view := Step(view, Line(t));
      owner := None;
    }

    /** Line 288: whether waiters have to be woken up. */
    method Subtract(t: nat) returns (contended: bool)
      requires Valid() && Enabled(view, Line(t)) && view.pcs[t].FetchSub?
      modifies this
      ensures Valid() && view == Step(old(view), Line(t)) && (contended <==> view.pcs[t].Store?)
    {
      StepInv(view, Line(t));
      view := Step(view, Line(t));
      contended := lock != UNLOCKED + 1;
      lock := lock - 1;
    }

    /** Line 289. */
    method StoreUnlocked(t: nat)
      requires Valid() && Enabled(view, Line(t)) && view.pcs[t].Store?
      modifies this
      ensures Valid() && view == Step(old(view), Line(t)) && lock == UNLOCKED
    {
      StepInv(view, Line(t));
      view := Step(view, Line(t));
      lock := UNLOCKED;
    }
  }
}
