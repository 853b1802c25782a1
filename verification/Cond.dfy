/** pthread/rthread_cond.c, lines 70-134 and 171-219: the condition variable over the
    hardware-abstraction semaphore (a lock with a wait set), with the user's mutex at its
    specification: a lock with a holder and, when recursive, a count. */
module Cond {
  import opened Counting
  import opened Options
  import opened Runs

  datatype Rc = OK | EINTR | ETIMEDOUT

  /** saved: mutex_count of lines 98-99. */
  datatype Pc =
    | Out
    | WaitEntry(saved: nat)            // line 103
    | Unlock(saved: nat)               // line 105
    | Sleep(saved: nat)                // line 109, about to sleep
    | Asleep(saved: nat)               // in the wait set
    | Signalled(saved: nat)            // chosen by a signal or broadcast, has to take cond->sem again
    | Woken(saved: nat, r: Rc)         // woken by anything else
    | Judge(saved: nat, r: Rc)         // lines 115-122
    | Relock(saved: nat, rv: Rc)       // line 124
    | Leave(saved: nat, rv: Rc)        // line 125
    | Restore(saved: nat, rv: Rc)      // lines 128-133, about to return rv
    | NotifyEntry(all: bool)           // lines 183 and 209
    | Notify(all: bool)                // lines 184 and 210
    | NotifyExit                       // lines 185 and 211

  /** holder and count: the mutex; sem: who holds cond->sem. */
  datatype State = State(recursive: bool, holder: Option<nat>, count: nat, sem: Option<nat>, pcs: seq<Pc>)

  datatype Event =
    | LockMutex(t: nat)
    | UnlockMutex(t: nat)
    | CallWait(t: nat)
    | CallNotify(t: nat, all: bool)
    | Line(t: nat)                           // the thread's next line
    | Decide(t: nat, cancelled: bool)        // lines 115-122
    | Wake(t: nat, r: Rc)                    // a sleeper wakes without a signal
    | Signal(t: nat, chosen: nat)            // line 184; chosen: the sleeper picked, if any

  predicate Holding(pc: Pc) {
    pc.Unlock? || pc.Sleep? || pc.Judge? || pc.Relock? || pc.Leave? || pc.Notify? || pc.NotifyExit?
  }

  predicate IsAsleep(pc: Pc) { pc.Asleep? }

  predicate SomeAsleep(s: State) { Count(s.pcs, IsAsleep) > 0 }

  predicate TakesSem(pc: Pc) { pc.WaitEntry? || pc.Signalled? || pc.Woken? || pc.NotifyEntry? }

  predicate Enabled(s: State, e: Event) {
    && e.t < |s.pcs|
    && match e
       case LockMutex(t) => s.pcs[t] == Out && (s.holder == None || (s.holder == Some(t) && s.recursive))
       case UnlockMutex(t) => s.pcs[t] == Out && s.holder == Some(t)
       case CallWait(t) => s.pcs[t] == Out && s.holder == Some(t)
       case CallNotify(t, _) => s.pcs[t] == Out
       case Line(t) =>
         && (TakesSem(s.pcs[t]) ==> s.sem == None)
         && (s.pcs[t].Relock? ==> s.holder == None || s.holder == Some(t))
         && !s.pcs[t].Out? && !s.pcs[t].Asleep? && !s.pcs[t].Judge? && s.pcs[t] != Notify(false)
       case Decide(t, _) => s.pcs[t].Judge?
       case Wake(t, _) => s.pcs[t].Asleep?
       case Signal(t, chosen) =>
         s.pcs[t] == Notify(false) && (SomeAsleep(s) ==> chosen < |s.pcs| && s.pcs[chosen].Asleep?)
  }

  function Move(s: State, t: nat, pc: Pc): State
    requires t < |s.pcs|
  {
    s.(pcs := s.pcs[t := pc])
  }

  /** pthread_mutex_lock by t, which may already hold a recursive mutex. */
  function Locked(s: State, t: nat): State {
    if s.holder == Some(t) then s.(count := s.count + 1) else s.(holder := Some(t))
  }

  /** pthread_mutex_unlock by its holder (pthread/rthread_mutex.c, lines 278-285): one level only. */
  function Unlocked(s: State): State {
    if s.recursive && s.count > 0 then s.(count := s.count - 1) else s.(holder := None)
  }

  function Wakened(pc: Pc): Pc { if pc.Asleep? then Signalled(pc.saved) else pc }

  function LineStep(s: State, t: nat): State
    requires Enabled(s, Line(t))
  {
    match s.pcs[t]
    case WaitEntry(saved) => Move(s, t, Unlock(saved)).(sem := Some(t))
    case Unlock(saved) => Move(Unlocked(s), t, Sleep(saved))
    case Sleep(saved) => Move(s, t, Asleep(saved)).(sem := None)
    case Signalled(saved) => Move(s, t, Judge(saved, OK)).(sem := Some(t))
    case Woken(saved, r) => Move(s, t, Judge(saved, r)).(sem := Some(t))
    case Relock(saved, r) => Move(Locked(s, t), t, Leave(saved, r))
    case Leave(saved, r) => Move(s, t, Restore(saved, r)).(sem := None)
    case Restore(saved, r) => Move(s, t, Out).(count := if s.recursive then saved else s.count)
    case NotifyEntry(all) => Move(s, t, Notify(all)).(sem := Some(t))
    case Notify(_) =>
      s.(pcs := seq(|s.pcs|, i requires 0 <= i < |s.pcs| => if i == t then NotifyExit else Wakened(s.pcs[i])))
    case _ => Move(s, t, Out).(sem := None)
  }

  /** Lines 119-122. */
  function Reported(r: Rc): Rc { if r == EINTR then OK else r }

  function Step(s: State, e: Event): State
    requires Enabled(s, e)
  {
    match e
    case LockMutex(t) => Locked(s, t)
    case UnlockMutex(t) => Unlocked(s)
    case CallWait(t) => Move(s, t, WaitEntry(if s.recursive then s.count else 0))
    case CallNotify(t, all) => Move(s, t, NotifyEntry(all))
    case Line(t) => LineStep(s, t)
    case Decide(t, cancelled) =>
      var saved, r := s.pcs[t].saved, s.pcs[t].r;
      Move(s, t, if r == EINTR && !cancelled then Sleep(saved) else Relock(saved, Reported(r)))
    case Wake(t, r) => Move(s, t, Woken(s.pcs[t].saved, r))
    case Signal(t, chosen) =>
      if SomeAsleep(s) then Move(Move(s, t, NotifyExit), chosen, Signalled(s.pcs[chosen].saved))
      else Move(s, t, NotifyExit)
  }

  predicate Init(s: State) {
    s.holder == None && s.count == 0 && s.sem == None && forall t :: 0 <= t < |s.pcs| ==> s.pcs[t] == Out
  }

  // ---- invariants ----

  /** Between the release in line 105 and taking the mutex back in line 124. */
  predicate InWait(pc: Pc) {
    pc.Sleep? || pc.Asleep? || pc.Signalled? || pc.Woken? || pc.Judge? || pc.Relock?
  }

  /** In a wait call, holding the mutex. */
  predicate AtEdge(pc: Pc) { pc.WaitEntry? || pc.Unlock? || pc.Leave? || pc.Restore? }

  ghost predicate Fits(s: State, t: nat)
    requires t < |s.pcs|
  {
    var pc := s.pcs[t];
    && (Holding(pc) <==> s.sem == Some(t))
    && (AtEdge(pc) ==> s.holder == Some(t) && s.count == pc.saved)
    && (InWait(pc) ==> (s.holder == Some(t) <==> pc.saved > 0)
                       && (pc.saved > 0 ==> s.recursive && s.count == pc.saved - 1))
  }

  ghost predicate Inv(s: State) {
    && (s.sem.Some? ==> s.sem.v < |s.pcs|) && (s.holder.Some? ==> s.holder.v < |s.pcs|)
    && (s.holder == None || !s.recursive ==> s.count == 0)
    && forall t :: 0 <= t < |s.pcs| ==> Fits(s, t)
  }

  lemma LineOwn(s: State, t: nat)
    requires Inv(s) && Enabled(s, Line(t))
    ensures |LineStep(s, t).pcs| == |s.pcs| && Fits(LineStep(s, t), t)
  {
    assert Fits(s, t);
  }

  lemma StepOwn(s: State, e: Event)
    requires Inv(s) && Enabled(s, e)
    ensures |Step(s, e).pcs| == |s.pcs| && Fits(Step(s, e), e.t)
  {
    assert Fits(s, e.t);
    if e.Line? { LineOwn(s, e.t); }
  }

  lemma LineOther(s: State, t: nat, u: nat)
    requires Inv(s) && Enabled(s, Line(t)) && u < |s.pcs| && u != t
    ensures |LineStep(s, t).pcs| == |s.pcs| && Fits(LineStep(s, t), u)
  {
    assert Fits(s, t) && Fits(s, u);
  }

  lemma StepOther(s: State, e: Event, u: nat)
    requires Inv(s) && Enabled(s, e) && u < |s.pcs| && u != e.t && !e.Line?
    ensures |Step(s, e).pcs| == |s.pcs| && Fits(Step(s, e), u)
  {
    assert Fits(s, e.t) && Fits(s, u);
  }

  lemma StepInv(s: State, e: Event)
    requires Inv(s) && Enabled(s, e)
    ensures Inv(Step(s, e))
  {
    assert Fits(s, e.t);
    StepOwn(s, e);
    forall u | 0 <= u < |s.pcs| ensures |Step(s, e).pcs| == |s.pcs| && Fits(Step(s, e), u) {
      if u == e.t {
      } else if e.Line? {
        LineOther(s, e.t, u);
      } else {
        StepOther(s, e, u);
      }
    }
  }

  // ---- runs ----

  lemma StepKeeps()
    ensures Keeps(Step, Inv)
  {
    forall s: State, e: Event | Inv(s) && Enabled(s, e) ensures Inv(Step(s, e)) { StepInv(s, e); }
  }

  lemma RunInv(s: State, es: seq<Event>)
    requires Inv(s) && AllEnabled(Step, s, es)
    ensures Inv(Final(Step, s, es))
  {
    StepKeeps();
    RunKeeps(Step, Inv, s, es);
  }

  ghost predicate Reachable(s: State) {
    EndsRun(Init, Step, s)
  }

  lemma ReachableInv(s: State)
    requires Reachable(s)
    ensures Inv(s)
  {
    StepKeeps();
    EndKeeps(Init, Step, Inv, s);
  }

  // ---- no lost signal ----

  /** Released the mutex, and not woken since. */
  predicate Waiting(pc: Pc) { pc.Sleep? || pc.Asleep? }

  /** Bound to leave the wait loop: awake for another reason than an interruption. */
  predicate Leaving(pc: Pc) { pc.Signalled? || (pc.Woken? && pc.r != EINTR) }

  /** Because cond->sem is taken before the mutex is released, a signaller (or broadcaster) finds
      every thread that has released its mutex and has not been woken since in the wait set. */
  lemma WaitersAreAsleep(s: State, t: nat, u: nat)
    requires Reachable(s) && t < |s.pcs| && s.pcs[t].Notify? && u < |s.pcs|
    ensures Waiting(s.pcs[u]) ==> s.pcs[u].Asleep?
    ensures InWait(s.pcs[u]) ==> s.pcs[u].Asleep? || s.pcs[u].Signalled? || s.pcs[u].Woken?
  {
    ReachableInv(s);
    assert Fits(s, t) && Fits(s, u);
  }

  lemma SignalWakesOne(s: State, t: nat, chosen: nat, u: nat)
    requires Reachable(s) && Enabled(s, Signal(t, chosen)) && u < |s.pcs| && Waiting(s.pcs[u])
    ensures chosen < |s.pcs| && s.pcs[chosen].Asleep?
    ensures Step(s, Signal(t, chosen)).pcs == s.pcs[t := NotifyExit][chosen := Signalled(s.pcs[chosen].saved)]
  {
    WaitersAreAsleep(s, t, u);
    CountPositive(s.pcs, u, IsAsleep);
  }

  lemma BroadcastWakesAll(s: State, t: nat, u: nat)
    requires Reachable(s) && t < |s.pcs| && s.pcs[t] == Notify(true) && u < |s.pcs| && InWait(s.pcs[u])
    ensures Step(s, Line(t)).pcs[u] == if s.pcs[u].Asleep? then Signalled(s.pcs[u].saved) else s.pcs[u]
    ensures !Waiting(Step(s, Line(t)).pcs[u])
  {
    WaitersAreAsleep(s, t, u);
  }

  predicate Interrupted(pc: Pc) { pc.Woken? && pc.r == EINTR }

  /** Blocked on the condition, as far as the caller can tell: asleep, or awake from an
      interruption that only sends it back to sleep. */
  predicate Blocked(pc: Pc) { pc.Asleep? || Interrupted(pc) }

  /** The signal frees one of the threads blocked on the condition. */
  ghost predicate Frees(s: State, t: nat, chosen: nat)
    requires Enabled(s, Signal(t, chosen))
  {
    exists u :: 0 <= u < |s.pcs| && Blocked(s.pcs[u]) && Leaving(Step(s, Signal(t, chosen)).pcs[u])
  }

  /** A signal frees a blocked thread if and only if one is in the wait set: it is lost exactly
      when every blocked thread, one at least, is just then awake from an interruption. */
  lemma SignalLostExactly(s: State, t: nat, chosen: nat)
    requires Reachable(s) && Enabled(s, Signal(t, chosen))
    ensures Frees(s, t, chosen) <==> exists u :: 0 <= u < |s.pcs| && s.pcs[u].Asleep?
    ensures forall u :: 0 <= u < |s.pcs| && InWait(s.pcs[u]) ==> Blocked(s.pcs[u]) || Leaving(s.pcs[u])
  {
    var s' := Step(s, Signal(t, chosen));
    forall u | 0 <= u < |s.pcs| && InWait(s.pcs[u]) ensures Blocked(s.pcs[u]) || Leaving(s.pcs[u]) {
      WaitersAreAsleep(s, t, u);
    }
    if u :| 0 <= u < |s.pcs| && s.pcs[u].Asleep? {
      SignalWakesOne(s, t, chosen, u);
      assert Blocked(s.pcs[chosen]) && Leaving(s'.pcs[chosen]);
    }
    if u :| 0 <= u < |s.pcs| && Blocked(s.pcs[u]) && Leaving(s'.pcs[u]) {
      assert s'.pcs[u] == s.pcs[u] || s.pcs[u].Asleep?;
    }
  }

  /** On the way out of the wait loop, or past it. */
  predicate Departing(pc: Pc) {
    Leaving(pc) || (pc.Judge? && pc.r != EINTR) || pc.Relock? || pc.Leave? || pc.Restore?
  }

  /** t does not return from its call before the last event. */
  predicate Inside(s: State, t: nat, es: seq<Event>)
    requires t < |s.pcs| && AllEnabled(Step, s, es)
    decreases |es|
  {
    es == [] || (s.pcs[t] != Out && t < |Step(s, es[0]).pcs| && Inside(Step(s, es[0]), t, es[1..]))
  }

  /** A thread that is bound to leave does not go back to sleep, whatever happens. */
  lemma {:induction false} LeavingLeaves(s: State, t: nat, es: seq<Event>)
    requires t < |s.pcs| && Departing(s.pcs[t]) && AllEnabled(Step, s, es) && Inside(s, t, es)
    ensures t < |Final(Step, s, es).pcs| && (Departing(Final(Step, s, es).pcs[t]) || Final(Step, s, es).pcs[t] == Out)
    decreases |es|
  {
    if es != [] {
      var s1 := Step(s, es[0]);
      DepartingStep(s, es[0], t);
      if s1.pcs[t] == Out {
        assert es[1..] == [];
      } else {
        LeavingLeaves(s1, t, es[1..]);
      }
    }
  }

  lemma DepartingStep(s: State, e: Event, t: nat)
    requires Enabled(s, e) && t < |s.pcs| && Departing(s.pcs[t])
    ensures t < |Step(s, e).pcs| && (Departing(Step(s, e).pcs[t]) || Step(s, e).pcs[t] == Out)
  {
    if e.t != t { OthersLeaveDeparting(s, e, t); }
  }

  lemma OthersLeaveDeparting(s: State, e: Event, t: nat)
    requires Enabled(s, e) && t < |s.pcs| && Departing(s.pcs[t]) && e.t != t
    ensures t < |Step(s, e).pcs| && Step(s, e).pcs[t] == s.pcs[t]
  {
    OnlyOwnMoves(s, e, t);
  }

  // ---- what a whole wait call returns ----

  /** t does not begin another call on the condition. */
  predicate NoCall(e: Event, t: nat) { e.t == t ==> !e.CallWait? && !e.CallNotify? }

  ghost predicate NoCalls(es: seq<Event>, t: nat) { forall e :: e in es ==> NoCall(e, t) }

  predicate TimedOut(pc: Pc) {
    || ((pc.Woken? || pc.Judge?) && pc.r == ETIMEDOUT)
    || ((pc.Relock? || pc.Leave? || pc.Restore?) && pc.rv == ETIMEDOUT)
  }

  predicate Interrupts(pc: Pc) { (pc.Relock? || pc.Leave? || pc.Restore?) && pc.rv == EINTR }

  /** Only t itself, or a signal or broadcast that finds it asleep, moves t. */
  lemma OnlyOwnMoves(s: State, e: Event, t: nat)
    requires Enabled(s, e) && t < |s.pcs| && e.t != t
    ensures |Step(s, e).pcs| == |s.pcs|
    ensures Step(s, e).pcs[t] == s.pcs[t] || (s.pcs[t].Asleep? && Step(s, e).pcs[t].Signalled?)
  {
  }

  ghost predicate TimedOutOrOut(s: State, t: nat) { t < |s.pcs| && (TimedOut(s.pcs[t]) || s.pcs[t] == Out) }

  lemma TimedOutReturns(s: State, t: nat, es: seq<Event>)
    requires TimedOutOrOut(s, t) && AllEnabled(Step, s, es) && NoCalls(es, t)
    ensures TimedOutOrOut(Final(Step, s, es), t)
  {
    var inv, kind := (x: State) => TimedOutOrOut(x, t), (e: Event) => NoCall(e, t);
    forall x: State, e: Event | inv(x) && kind(e) && Enabled(x, e) ensures inv(Step(x, e)) {
      if e.t != t { OnlyOwnMoves(x, e, t); }
    }
    RunKeepsUnder(Step, inv, kind, s, es);
  }

  ghost predicate Untimed(s: State, t: nat) { t < |s.pcs| && !TimedOut(s.pcs[t]) && !Interrupts(s.pcs[t]) }

  lemma NeverTimedOut(s: State, t: nat, es: seq<Event>)
    requires Untimed(s, t) && AllEnabled(Step, s, es) && Wake(t, ETIMEDOUT) !in es
    ensures Untimed(Final(Step, s, es), t)
  {
    var inv, kind := (x: State) => Untimed(x, t), (e: Event) => e != Wake(t, ETIMEDOUT);
    forall x: State, e: Event | inv(x) && kind(e) && Enabled(x, e) ensures inv(Step(x, e)) { UntimedStep(x, e, t); }
    RunKeepsUnder(Step, inv, kind, s, es);
  }

  lemma UntimedStep(s: State, e: Event, t: nat)
    requires Untimed(s, t) && Enabled(s, e) && e != Wake(t, ETIMEDOUT)
    ensures Untimed(Step(s, e), t)
  {
    if e.t != t { OnlyOwnMoves(s, e, t); } else if e.Line? { UntimedLine(s, t); }
  }

  lemma UntimedLine(s: State, t: nat)
    requires Untimed(s, t) && Enabled(s, Line(t))
    ensures Untimed(LineStep(s, t), t)
  {
  }

  /** A wait call that is about to return rv: ETIMEDOUT exactly if the sleep timed out, and 0
      otherwise, also when it was cancelled. */
  lemma WaitResult(s: State, t: nat, es: seq<Event>)
    requires Enabled(s, CallWait(t)) && AllEnabled(Step, Step(s, CallWait(t)), es) && NoCalls(es, t)
    requires var end := Final(Step, Step(s, CallWait(t)), es); t < |end.pcs| && end.pcs[t].Restore?
    ensures var rv := Final(Step, Step(s, CallWait(t)), es).pcs[t].rv;
      && (rv == ETIMEDOUT <==> Wake(t, ETIMEDOUT) in es)
      && (rv == OK <==> Wake(t, ETIMEDOUT) !in es)
  {
    var s1 := Step(s, CallWait(t));
    if Wake(t, ETIMEDOUT) in es {
      var i :| 0 <= i < |es| && es[i] == Wake(t, ETIMEDOUT);
      var s2 := RunSplit(Step, s1, es, i);
      TimedOutReturns(Step(s2, es[i]), t, es[i + 1..]);
    } else {
      NeverTimedOut(s1, t, es);
    }
  }

  // ---- runs of its pieces ----

  function WaitEvents(t: nat, more: seq<Event>): seq<Event> {
    [CallWait(t)] + ([Line(t)] + ([Line(t)] + ([Line(t)] + more)))
  }

  /** pthread_cond_wait up to going to sleep. */
  function AfterWait(s: State, t: nat): State
    requires t < |s.pcs|
  {
    Move(Unlocked(s), t, Asleep(if s.recursive then s.count else 0))
  }

  lemma WaitIsRun(s: State, t: nat, more: seq<Event>)
    requires Enabled(s, CallWait(t)) && s.sem == None && AllEnabled(Step, AfterWait(s, t), more)
    ensures AllEnabled(Step, s, WaitEvents(t, more))
    ensures Final(Step, s, WaitEvents(t, more)) == Final(Step, AfterWait(s, t), more)
  {
    var saved := if s.recursive then s.count else 0;
    var s1 := Step(s, CallWait(t));
    var s2 := Step(s1, Line(t));
    assert s2.pcs == s.pcs[t := Unlock(saved)];
    var s3 := Step(s2, Line(t));
    assert s3.pcs == s.pcs[t := Sleep(saved)];
    var s4 := Step(s3, Line(t));
    assert s4.pcs == s.pcs[t := Asleep(saved)];
    assert s4 == AfterWait(s, t);
    RunCons(Step, s3, Line(t), more);
    RunCons(Step, s2, Line(t), [Line(t)] + more);
    RunCons(Step, s1, Line(t), [Line(t)] + ([Line(t)] + more));
    RunCons(Step, s, CallWait(t), [Line(t)] + ([Line(t)] + ([Line(t)] + more)));
  }

  function SignalEvents(t: nat, chosen: nat, more: seq<Event>): seq<Event> {
    [CallNotify(t, false)] + ([Line(t)] + ([Signal(t, chosen)] + ([Line(t)] + more)))
  }

  function Three(t: nat): seq<Event> { [Line(t)] + ([Line(t)] + ([Line(t)] + [])) }

  /** Lines 109-133 from waking up to going back to sleep or returning. */
  function ResumeEvents(t: nat, r: Rc, cancelled: bool): seq<Event> {
    [Line(t)] + ([Decide(t, cancelled)] + (if r == EINTR && !cancelled then [Line(t)] + [] else Three(t)))
  }

  /** An interrupted waiter that is not cancelled goes back to sleep. */
  lemma BackToSleepIsRun(s: State, t: nat, saved: nat)
    requires t < |s.pcs| && s.pcs[t] == Woken(saved, EINTR) && s.sem == None
    ensures AllEnabled(Step, s, ResumeEvents(t, EINTR, false))
    ensures Final(Step, s, ResumeEvents(t, EINTR, false)) == Move(s, t, Asleep(saved))
  {
    var s1 := Step(s, Line(t));
    assert s1.pcs == s.pcs[t := Judge(saved, EINTR)];
    var s2 := Step(s1, Decide(t, false));
    assert s2.pcs == s.pcs[t := Sleep(saved)];
    assert Step(s2, Line(t)).pcs == s.pcs[t := Asleep(saved)];
    RunCons(Step, s2, Line(t), []);
    RunCons(Step, s1, Decide(t, false), [Line(t)] + []);
    RunCons(Step, s, Line(t), [Decide(t, false)] + ([Line(t)] + []));
  }

  /** Thread t locks the mutex and waits. */
  function LockWaitEvents(t: nat, more: seq<Event>): seq<Event> {
    [LockMutex(t)] + WaitEvents(t, more)
  }

  lemma LockWaitIsRun(s: State, t: nat, pcs: seq<Pc>, more: seq<Event>) returns (s': State)
    requires t < |s.pcs| && s.pcs[t] == Out && s.holder == None && s.sem == None && s.count == 0
    requires pcs == s.pcs[t := Asleep(0)] && AllEnabled(Step, s.(pcs := pcs), more)
    ensures s' == s.(pcs := pcs)
    ensures AllEnabled(Step, s, LockWaitEvents(t, more))
    ensures Final(Step, s, LockWaitEvents(t, more)) == Final(Step, s', more)
  {
    s' := s.(pcs := pcs);
    var held := Step(s, LockMutex(t));
    assert AfterWait(held, t) == s';
    WaitIsRun(held, t, more);
    RunCons(Step, s, LockMutex(t), WaitEvents(t, more));
  }

  /** pthread_cond_signal by t up to the signal. */
  function NotifyEvents(t: nat, more: seq<Event>): seq<Event> {
    [CallNotify(t, false)] + ([Line(t)] + more)
  }

  function Notifying(s: State, t: nat): State
    requires t < |s.pcs|
  {
    Move(s, t, Notify(false)).(sem := Some(t))
  }

  lemma NotifyIsRun(s: State, t: nat, more: seq<Event>)
    requires t < |s.pcs| && s.pcs[t] == Out && s.sem == None && AllEnabled(Step, Notifying(s, t), more)
    ensures AllEnabled(Step, s, NotifyEvents(t, more))
    ensures Final(Step, s, NotifyEvents(t, more)) == Final(Step, Notifying(s, t), more)
  {
    var s1 := Step(s, CallNotify(t, false));
    var s2 := Step(s1, Line(t));
    assert s2.pcs == s.pcs[t := Notify(false)];
    RunCons(Step, s1, Line(t), more);
    RunCons(Step, s, CallNotify(t, false), [Line(t)] + more);
  }

  /** A signal by t that wakes the sleeper u, up to t's return. */
  lemma SignalIsRun(s: State, t: nat, u: nat, more: seq<Event>)
    requires t < |s.pcs| && s.pcs[t] == Out && s.sem == None && u < |s.pcs| && s.pcs[u].Asleep?
    requires AllEnabled(Step, Move(s, u, Signalled(s.pcs[u].saved)), more)
    ensures AllEnabled(Step, s, SignalEvents(t, u, more))
    ensures Final(Step, s, SignalEvents(t, u, more)) == Final(Step, Move(s, u, Signalled(s.pcs[u].saved)), more)
  {
    var s2 := Notifying(s, t);
    CountPositive(s2.pcs, u, IsAsleep);
    var s3 := Step(s2, Signal(t, u));
    var s4 := Step(s3, Line(t));
    assert s4.pcs == s.pcs[u := Signalled(s.pcs[u].saved)];
    RunCons(Step, s3, Line(t), more);
    RunCons(Step, s2, Signal(t, u), [Line(t)] + more);
    NotifyIsRun(s, t, [Signal(t, u)] + ([Line(t)] + more));
  }

  /** Two waiters, 0 and 1, and two signals by 2: the first wakes 0, 1 is interrupted, and the
      second finds 1 awake. */
  function TwoSignals(): seq<Event> {
    LockWaitEvents(0, LockWaitEvents(1, SignalEvents(2, 0, [Wake(1, EINTR)] + NotifyEvents(2, []))))
  }

  lemma BeforeSecondSignal(s0: State, s: State)
    requires s0 == State(false, None, 0, None, [Out, Out, Out])
    requires s == State(false, None, 0, Some(2), [Signalled(0), Woken(0, EINTR), Notify(false)])
    ensures AllEnabled(Step, s0, TwoSignals()) && Final(Step, s0, TwoSignals()) == s
  {
    var one := s0.(pcs := [Asleep(0), Out, Out]);
    var two := s0.(pcs := [Asleep(0), Asleep(0), Out]);
    var woken := s0.(pcs := [Signalled(0), Asleep(0), Out]);
    var interrupted := s0.(pcs := [Signalled(0), Woken(0, EINTR), Out]);
    assert Notifying(interrupted, 2) == s;
    NotifyIsRun(interrupted, 2, []);
    assert Step(woken, Wake(1, EINTR)) == interrupted;
    RunCons(Step, woken, Wake(1, EINTR), NotifyEvents(2, []));
    assert Move(two, 0, Signalled(0)) == woken;
    var fromWoken := [Wake(1, EINTR)] + NotifyEvents(2, []);
    SignalIsRun(two, 2, 0, fromWoken);
    var _ := LockWaitIsRun(one, 1, two.pcs, SignalEvents(2, 0, fromWoken));
    var _ := LockWaitIsRun(s0, 0, one.pcs, LockWaitEvents(1, SignalEvents(2, 0, fromWoken)));
  }

  /** The lost signal: the second one leaves both waiters as they were, and waiter 1 goes back to
      sleep.  Two waiters, two signals, one of them freed. */
  lemma InterruptedWaiterMissesSignal() returns (s0: State, es: seq<Event>, s: State, more: seq<Event>, end: State)
    ensures Init(s0) && AllEnabled(Step, s0, es) && Final(Step, s0, es) == s
    ensures Signal(2, 0) in es && s.pcs == [Signalled(0), Woken(0, EINTR), Notify(false)]
    ensures Enabled(s, Signal(2, 0)) && Step(s, Signal(2, 0)).pcs == [Signalled(0), Woken(0, EINTR), NotifyExit]
    ensures !Frees(s, 2, 0)
    ensures AllEnabled(Step, Step(s, Signal(2, 0)), more) && Final(Step, Step(s, Signal(2, 0)), more) == end
    ensures end.pcs == [Signalled(0), Asleep(0), Out]
  {
    s0 := State(false, None, 0, None, [Out, Out, Out]);
    s := State(false, None, 0, Some(2), [Signalled(0), Woken(0, EINTR), Notify(false)]);
    es := UpToSecondSignal(s0, s);
    more, end := SecondSignalLost(s);
  }

  lemma UpToSecondSignal(s0: State, s: State) returns (es: seq<Event>)
    requires s0 == State(false, None, 0, None, [Out, Out, Out])
    requires s == State(false, None, 0, Some(2), [Signalled(0), Woken(0, EINTR), Notify(false)])
    ensures AllEnabled(Step, s0, es) && Final(Step, s0, es) == s && Signal(2, 0) in es
  {
    es := TwoSignals();
    BeforeSecondSignal(s0, s);
    FirstSignalSent();
  }

  lemma SecondSignalLost(s: State) returns (more: seq<Event>, end: State)
    requires s == State(false, None, 0, Some(2), [Signalled(0), Woken(0, EINTR), Notify(false)])
    ensures Enabled(s, Signal(2, 0)) && Step(s, Signal(2, 0)).pcs == [Signalled(0), Woken(0, EINTR), NotifyExit]
    ensures !Frees(s, 2, 0)
    ensures AllEnabled(Step, Step(s, Signal(2, 0)), more) && Final(Step, Step(s, Signal(2, 0)), more) == end
    ensures end.pcs == [Signalled(0), Asleep(0), Out]
  {
    CountZero(s.pcs, IsAsleep);
    var s1 := Step(s, Signal(2, 0));
    assert s1.pcs == [Signalled(0), Woken(0, EINTR), NotifyExit];
    more, end := AfterSecondSignal(s1);
  }

  lemma AfterSecondSignal(s: State) returns (more: seq<Event>, end: State)
    requires s == State(false, None, 0, Some(2), [Signalled(0), Woken(0, EINTR), NotifyExit])
    ensures AllEnabled(Step, s, more) && Final(Step, s, more) == end && end.pcs == [Signalled(0), Asleep(0), Out]
  {
    var interrupted := Step(s, Line(2));
    assert interrupted.pcs == [Signalled(0), Woken(0, EINTR), Out];
    BackToSleepIsRun(interrupted, 1, 0);
    end := Move(interrupted, 1, Asleep(0));
    RunCons(Step, s, Line(2), ResumeEvents(1, EINTR, false));
    more := [Line(2)] + ResumeEvents(1, EINTR, false);
  }

  lemma FirstSignalSent()
    ensures Signal(2, 0) in TwoSignals()
  {
    var fromSignal := SignalEvents(2, 0, [Wake(1, EINTR)] + NotifyEvents(2, []));
    assert Signal(2, 0) in fromSignal;
    assert forall e :: e in fromSignal ==> e in LockWaitEvents(1, fromSignal);
    assert forall e :: e in LockWaitEvents(1, fromSignal) ==> e in TwoSignals();
  }

  // ---- the mutex ----

  /** While t waits, the mutex is released exactly if t had locked it once: line 105 is a single
      unlock, whatever count was. */
  lemma ReleasedExactly(s: State, t: nat)
    requires Reachable(s) && t < |s.pcs| && InWait(s.pcs[t])
    ensures s.holder != Some(t) <==> s.pcs[t].saved == 0
    ensures s.pcs[t].saved > 0 ==> s.recursive && forall u :: u != t ==> !Enabled(s, LockMutex(u))
  {
    ReachableInv(s);
    assert Fits(s, t);
  }

  /** In a wait call that began with count == saved. */
  predicate Calling(pc: Pc, saved: nat) { (AtEdge(pc) || InWait(pc)) && pc.saved == saved }

  /** saved stays what it is; on return the caller holds the mutex again, with that count. */
  lemma SavedStep(s: State, e: Event, t: nat, saved: nat)
    requires Inv(s) && Enabled(s, e) && t < |s.pcs| && Calling(s.pcs[t], saved)
    ensures |Step(s, e).pcs| == |s.pcs|
    ensures Calling(Step(s, e).pcs[t], saved)
            || (Step(s, e).pcs[t] == Out && Step(s, e).holder == Some(t) && Step(s, e).count == saved)
  {
    assert Fits(s, t);
    if t == e.t { SavedByOwn(s, e, saved); } else { SavedByOther(s, e, t, saved); }
  }

  lemma SavedByOwn(s: State, e: Event, saved: nat)
    requires Enabled(s, e) && Calling(s.pcs[e.t], saved) && Fits(s, e.t)
    ensures |Step(s, e).pcs| == |s.pcs|
    ensures Calling(Step(s, e).pcs[e.t], saved)
            || (Step(s, e).pcs[e.t] == Out && Step(s, e).holder == Some(e.t) && Step(s, e).count == saved)
  {
  }

  lemma SavedByOther(s: State, e: Event, t: nat, saved: nat)
    requires Enabled(s, e) && t < |s.pcs| && t != e.t && Calling(s.pcs[t], saved)
    ensures |Step(s, e).pcs| == |s.pcs| && Calling(Step(s, e).pcs[t], saved)
  {
    if e.Line? { SavedByLine(s, e.t, t, saved); }
  }

  lemma SavedByLine(s: State, u: nat, t: nat, saved: nat)
    requires Enabled(s, Line(u)) && t < |s.pcs| && t != u && Calling(s.pcs[t], saved)
    ensures |LineStep(s, u).pcs| == |s.pcs| && Calling(LineStep(s, u).pcs[t], saved)
  {
  }

  /** Over a whole wait call: when it returns, the mutex is held with the count it was called with. */
  lemma WaitKeepsCount(s: State, t: nat, es: seq<Event>)
    requires Reachable(s) && Enabled(s, CallWait(t))
    requires AllEnabled(Step, Step(s, CallWait(t)), es) && Inside(Step(s, CallWait(t)), t, es)
    ensures var end := Final(Step, Step(s, CallWait(t)), es);
      && t < |end.pcs|
      && (end.pcs[t] == Out ==> end.holder == Some(t) && end.count == s.count)
  {
    ReachableInv(s);
    StepInv(s, CallWait(t));
    CallReturns(Step(s, CallWait(t)), t, s.count, es);
  }

  lemma {:induction false} CallReturns(s: State, t: nat, saved: nat, es: seq<Event>)
    requires Inv(s) && t < |s.pcs| && Calling(s.pcs[t], saved) && AllEnabled(Step, s, es) && Inside(s, t, es)
    ensures t < |Final(Step, s, es).pcs|
    ensures var end := Final(Step, s, es);
      Calling(end.pcs[t], saved) || (end.pcs[t] == Out && end.holder == Some(t) && end.count == saved)
    decreases |es|
  {
    if es != [] {
      var s1 := Step(s, es[0]);
      StepInv(s, es[0]);
      SavedStep(s, es[0], t, saved);
      if s1.pcs[t] == Out {
        assert es[1..] == [];
      } else {
        CallReturns(s1, t, saved, es[1..]);
      }
    }
  }

  /** A recursive mutex locked twice stays locked while its holder sleeps. */
  lemma RecursiveMutexStaysLocked() returns (s0: State, es: seq<Event>, s: State)
    ensures Init(s0) && AllEnabled(Step, s0, es) && Final(Step, s0, es) == s
    ensures s.pcs == [Asleep(1), Out] && s.holder == Some(0) && !Enabled(s, LockMutex(1))
  {
    s0 := State(true, None, 0, None, [Out, Out]);
    var s1 := Step(s0, LockMutex(0));
    var s2 := Step(s1, LockMutex(0));
    s := AfterWait(s2, 0);
    WaitIsRun(s2, 0, []);
    RunCons(Step, s1, LockMutex(0), WaitEvents(0, []));
    RunCons(Step, s0, LockMutex(0), [LockMutex(0)] + WaitEvents(0, []));
    es := [LockMutex(0)] + ([LockMutex(0)] + WaitEvents(0, []));
  }

  // ---- taking the mutex back ----

  /** t has cond->sem and waits for the mutex (line 124); the holder of the mutex, u, is not outside
      or past line 125 of its own wait, so that it needs cond->sem first. */
  predicate Jammed(s: State, t: nat, u: nat) {
    && t < |s.pcs| && u < |s.pcs| && t != u
    && s.pcs[t].Relock? && s.holder == Some(u) && s.pcs[u] != Out && !s.pcs[u].Restore?
  }

  /** Nothing gets them out of it. */
  lemma JammedStays(s: State, e: Event, t: nat, u: nat)
    requires Inv(s) && Jammed(s, t, u) && Enabled(s, e)
    ensures Jammed(Step(s, e), t, u)
  {
    assert Fits(s, t) && Fits(s, u) && Fits(s, e.t);
    if e.t != u && e.t != t { OnlyCallsOrWakes(s, e, t, u); }
  }

  lemma OnlyCallsOrWakes(s: State, e: Event, t: nat, u: nat)
    requires Inv(s) && Jammed(s, t, u) && Enabled(s, e) && e.t != u && e.t != t
    ensures e.CallNotify? || e.Wake?
  {
    assert Fits(s, t) && Fits(s, u) && Fits(s, e.t);
  }

  /** In this run t returns from its call. */
  ghost predicate Returns(s: State, t: nat, es: seq<Event>) {
    AllEnabled(Step, s, es) && t < |Final(Step, s, es).pcs| && Final(Step, s, es).pcs[t] == Out
  }

  lemma JammedNeverReturns(s: State, t: nat, u: nat, es: seq<Event>)
    requires Inv(s) && Jammed(s, t, u) && AllEnabled(Step, s, es)
    ensures Jammed(Final(Step, s, es), t, u)
  {
    var inv := (x: State) => Inv(x) && Jammed(x, t, u);
    forall x: State, e: Event | inv(x) && Enabled(x, e) ensures inv(Step(x, e)) {
      StepInv(x, e);
      JammedStays(x, e, t, u);
    }
    RunKeeps(Step, inv, s, es);
  }

  /** A thread outside that holds the mutex can undo all levels of locking. */
  lemma {:induction false} GiveBack(s: State, u: nat) returns (es: seq<Event>, s': State)
    requires Inv(s) && u < |s.pcs| && s.pcs[u] == Out && s.holder == Some(u)
    ensures AllEnabled(Step, s, es) && Final(Step, s, es) == s' && s' == s.(holder := None, count := 0)
    decreases s.count
  {
    var s1 := Step(s, UnlockMutex(u));
    if s.count == 0 {
      RunCons(Step, s, UnlockMutex(u), []);
      es, s' := [UnlockMutex(u)] + [], s1;
    } else {
      StepInv(s, UnlockMutex(u));
      es, s' := GiveBack(s1, u);
      RunCons(Step, s, UnlockMutex(u), es);
      es := [UnlockMutex(u)] + es;
    }
  }

  /** A holder that is outside or past line 125 lets t have the mutex. */
  lemma HolderLetsGo(s: State, t: nat, u: nat) returns (es: seq<Event>)
    requires Inv(s) && t < |s.pcs| && u < |s.pcs| && t != u && s.pcs[t].Relock?
    requires s.holder == Some(u) && (s.pcs[u] == Out || s.pcs[u].Restore?)
    ensures Returns(s, t, es)
  {
    es := [];
    var s1 := s;
    if s.pcs[u].Restore? {
      s1 := Step(s, Line(u));
      StepInv(s, Line(u));
      RunCons(Step, s, Line(u), []);
      es := [Line(u)] + [];
    }
    var more, s2 := GiveBack(s1, u);
    RunInv(s1, more);
    assert Fits(s2, t);
    ReturnIsRun(s2, t, s2.pcs[t].saved, s2.pcs[t].rv);
    RunAppend(Step, s1, more, Three(t));
    RunAppend(Step, s, es, more + Three(t));
    es := es + (more + Three(t));
  }

  /** Exactly when a thread in line 124 can still return: if the mutex is free or its own, or its
      holder is outside or past line 125. */
  lemma RelockReturnsExactly(s: State, t: nat)
    requires Reachable(s) && t < |s.pcs| && s.pcs[t].Relock?
    ensures s.holder.Some? ==> s.holder.v < |s.pcs|
    ensures (exists es: seq<Event> :: Returns(s, t, es)) <==>
            (s.holder.Some? && s.holder.v != t ==> s.pcs[s.holder.v] == Out || s.pcs[s.holder.v].Restore?)
  {
    ReachableInv(s);
    assert Fits(s, t);
    if s.holder == None || s.holder == Some(t) {
      ReturnIsRun(s, t, s.pcs[t].saved, s.pcs[t].rv);
      assert Returns(s, t, Three(t));
    } else if s.pcs[s.holder.v] == Out || s.pcs[s.holder.v].Restore? {
      var es := HolderLetsGo(s, t, s.holder.v);
    } else {
      forall es: seq<Event> | AllEnabled(Step, s, es) ensures !Returns(s, t, es) {
        JammedNeverReturns(s, t, s.holder.v, es);
      }
    }
  }

  predicate NotWake(e: Event) { !e.Wake? }

  /** A run to such a state without waking up unasked. */
  ghost predicate Jams(s0: State, es: seq<Event>, t: nat, u: nat) {
    && Init(s0) && AllEnabled(Step, s0, es) && (forall e :: e in es ==> NotWake(e))
    && Jammed(Final(Step, s0, es), t, u)
  }

  /** Thread 0 waits; 1 signals, unlocks the mutex, locks it again and waits before 0 has taken it
      back.  These are the calls that two threads make at a barrier of threshold two
      (pthread/rthread_barrier.c:110-126) when the second one completes the round and arrives
      again. */
  function JamEvents(): seq<Event> {
    LockWaitEvents(0, [LockMutex(1)] + SignalEvents(1, 0, AfterSignal()))
  }

  /** With two threads nothing at all is enabled at the end. */
  lemma SignalThenWaitJams(recursive: bool, threads: nat) returns (s0: State, s: State)
    requires threads >= 2
    ensures s0.recursive == recursive && |s0.pcs| == |s.pcs| == threads && Jams(s0, JamEvents(), 0, 1)
    ensures Final(Step, s0, JamEvents()) == s && s.pcs[..2] == [Relock(0, OK), WaitEntry(0)]
    ensures threads == 2 ==> forall e: Event :: !Enabled(s, e)
  {
    s0 := State(recursive, None, 0, None, seq(threads, i => Out));
    s := s0.(holder := Some(1), sem := Some(0), pcs := s0.pcs[0 := Relock(0, OK)][1 := WaitEntry(0)]);
    JamIsRun(s0, s);
    NoWakes();
    if threads == 2 { NothingEnabled(s); }
  }

  lemma JamIsRun(s: State, end: State)
    requires Init(s) && |s.pcs| >= 2
    requires end == s.(holder := Some(1), sem := Some(0), pcs := s.pcs[0 := Relock(0, OK)][1 := WaitEntry(0)])
    ensures AllEnabled(Step, s, JamEvents()) && Final(Step, s, JamEvents()) == end
  {
    var asleep := s.(pcs := s.pcs[0 := Asleep(0)]);
    assert asleep.pcs[0 := Relock(0, OK)] == s.pcs[0 := Relock(0, OK)];
    SignalledIsRun(asleep, end);
    var s1 := LockWaitIsRun(s, 0, asleep.pcs, [LockMutex(1)] + SignalEvents(1, 0, AfterSignal()));
  }

  lemma NothingEnabled(s: State)
    requires s.pcs == [Relock(0, OK), WaitEntry(0)] && s.holder == Some(1) && s.sem == Some(0)
    ensures forall e: Event :: !Enabled(s, e)
  {
  }

  function AfterSignal(): seq<Event> {
    [UnlockMutex(1)] + ([LockMutex(1)] + ([Line(0)] + ([Decide(0, false)] + ([CallWait(1)] + []))))
  }

  lemma NoWakes()
    ensures forall e :: e in JamEvents() ==> NotWake(e)
  {
    var fromSignal := SignalEvents(1, 0, AfterSignal());
    assert forall e :: e in fromSignal ==> NotWake(e);
    assert forall e :: e in JamEvents() ==> e in LockWaitEvents(0, []) || e == LockMutex(1) || e in fromSignal;
  }

  lemma SignalledIsRun(s: State, end: State)
    requires |s.pcs| >= 2 && s.holder == None && s.count == 0 && s.sem == None
    requires s.pcs[0] == Asleep(0) && s.pcs[1] == Out
    requires end == s.(holder := Some(1), sem := Some(0), pcs := s.pcs[0 := Relock(0, OK)][1 := WaitEntry(0)])
    ensures var es := [LockMutex(1)] + SignalEvents(1, 0, AfterSignal());
      AllEnabled(Step, s, es) && Final(Step, s, es) == end
  {
    var held := s.(holder := Some(1));
    var signalled := held.(pcs := s.pcs[0 := Signalled(0)]);
    AfterSignalIsRun(signalled, end);
    SignalIsRun(held, 1, 0, AfterSignal());
    assert Step(s, LockMutex(1)) == held;
    RunCons(Step, s, LockMutex(1), SignalEvents(1, 0, AfterSignal()));
  }

  lemma AfterSignalIsRun(s: State, end: State)
    requires |s.pcs| >= 2 && s.holder == Some(1) && s.count == 0 && s.sem == None
    requires s.pcs[0] == Signalled(0) && s.pcs[1] == Out
    requires end == s.(sem := Some(0), pcs := s.pcs[0 := Relock(0, OK)][1 := WaitEntry(0)])
    ensures AllEnabled(Step, s, AfterSignal()) && Final(Step, s, AfterSignal()) == end
  {
    var awake := s.(sem := Some(0), pcs := s.pcs[0 := Judge(0, OK)]);
    var relock := s.(sem := Some(0), pcs := s.pcs[0 := Relock(0, OK)]);
    assert awake.pcs[0 := Relock(0, OK)] == relock.pcs;
    var free := s.(holder := None);
    assert Step(relock, CallWait(1)) == end;
    assert Step(awake, Decide(0, false)) == relock;
    assert Step(s, Line(0)) == awake;
    assert Step(free, LockMutex(1)) == s && Step(s, UnlockMutex(1)) == free;
    RunCons(Step, relock, CallWait(1), []);
    RunCons(Step, awake, Decide(0, false), [CallWait(1)] + []);
    RunCons(Step, s, Line(0), [Decide(0, false)] + ([CallWait(1)] + []));
    RunCons(Step, free, LockMutex(1), [Line(0)] + ([Decide(0, false)] + ([CallWait(1)] + [])));
    RunCons(Step, s, UnlockMutex(1), [LockMutex(1)] + ([Line(0)] + ([Decide(0, false)] + ([CallWait(1)] + []))));
  }

  /** For either kind of mutex such a state can be reached if and only if there are two threads. */
  lemma JamsExactly(recursive: bool, threads: nat)
    ensures (exists s0: State, es: seq<Event>, t: nat, u: nat ::
               s0.recursive == recursive && |s0.pcs| == threads && Jams(s0, es, t, u)) <==> threads >= 2
  {
    if threads >= 2 { var s0, s := SignalThenWaitJams(recursive, threads); }
    forall s0: State, es: seq<Event>, t: nat, u: nat | |s0.pcs| == threads && Jams(s0, es, t, u) ensures threads >= 2 {
      SameThreads(s0, es);
    }
  }

  lemma SameThreads(s: State, es: seq<Event>)
    requires Inv(s) && AllEnabled(Step, s, es)
    ensures |Final(Step, s, es).pcs| == |s.pcs|
  {
    var inv := (x: State) => Inv(x) && |x.pcs| == |s.pcs|;
    forall x: State, e: Event | inv(x) && Enabled(x, e) ensures inv(Step(x, e)) {
      StepInv(x, e);
      StepOwn(x, e);
    }
    RunKeeps(Step, inv, s, es);
  }

  // ---- refinement of a monitor ----

  /** What the caller sees: the mutex, and the set of threads blocked on the condition. */
  datatype Monitor = Monitor(holder: Option<nat>, count: nat, waiting: set<nat>)

  ghost function Abstract(s: State): Monitor {
    Monitor(s.holder, s.count, set t | 0 <= t < |s.pcs| && Waiting(s.pcs[t]))
  }

  datatype Action =
    | Quiet
    | Take(t: nat)            // lock the mutex, once more if it is already held
    | Release(t: nat)         // undo one level of locking
    | BeginWait(t: nat)       // that, and block, in one step
    | NotifyOne(u: nat)
    | NotifyAll
    | WakeUp(u: nat)          // not asked for by anybody
    | Rejoin(t: nat)          // an interrupted waiter blocks again

  function OneLevelLess(m: Monitor): Monitor {
    if m.count > 0 then m.(count := m.count - 1) else m.(holder := None)
  }

  ghost predicate Allowed(m: Monitor, m': Monitor, a: Action) {
    match a
    case Quiet => m' == m
    case Take(t) =>
      || (m.holder == None && m' == m.(holder := Some(t)))
      || (m.holder == Some(t) && m' == m.(count := m.count + 1))
    case Release(t) => m.holder == Some(t) && m' == OneLevelLess(m)
    case BeginWait(t) => m.holder == Some(t) && t !in m.waiting && m' == OneLevelLess(m).(waiting := m.waiting + {t})
    case NotifyOne(u) => if m.waiting == {} then m' == m else u in m.waiting && m' == m.(waiting := m.waiting - {u})
    case NotifyAll => m' == m.(waiting := {})
    case WakeUp(u) => u in m.waiting && m' == m.(waiting := m.waiting - {u})
    case Rejoin(t) => t !in m.waiting && m' == m.(waiting := m.waiting + {t})
  }

  function ActionOf(s: State, e: Event): Action
    requires Enabled(s, e)
  {
    match e
    case LockMutex(t) => Take(t)
    case UnlockMutex(t) => Release(t)
    case Signal(_, chosen) => NotifyOne(chosen)
    case Wake(u, _) => WakeUp(u)
    case Decide(t, cancelled) => if s.pcs[t].r == EINTR && !cancelled then Rejoin(t) else Quiet
    case Line(t) =>
      if s.pcs[t].Unlock? then BeginWait(t)
      else if s.pcs[t].Relock? then Take(t)
      else if s.pcs[t].Notify? then NotifyAll
      else Quiet
    case _ => Quiet
  }

  /** Every step is a step of the monitor: waiting is atomic with releasing the mutex, and a
      signal is not lost to a thread that waits. */
  lemma RefinesMonitor(s: State, e: Event)
    requires Reachable(s) && Enabled(s, e)
    ensures Allowed(Abstract(s), Abstract(Step(s, e)), ActionOf(s, e))
  {
    ReachableInv(s);
    assert Fits(s, e.t);
    if e.Signal? {
      SignalRefines(s, e.t, e.chosen);
    } else if e.Line? {
      LineRefines(s, e.t);
    }
  }

  lemma LineRefines(s: State, t: nat)
    requires Reachable(s) && Inv(s) && Enabled(s, Line(t))
    ensures Allowed(Abstract(s), Abstract(LineStep(s, t)), ActionOf(s, Line(t)))
  {
    assert Fits(s, t);
    if s.pcs[t].Notify? {
      forall u | 0 <= u < |s.pcs| ensures !Waiting(LineStep(s, t).pcs[u]) { WaitersAreAsleep(s, t, u); }
    }
  }

  lemma SignalRefines(s: State, t: nat, chosen: nat)
    requires Reachable(s) && Enabled(s, Signal(t, chosen))
    ensures Allowed(Abstract(s), Abstract(Step(s, Signal(t, chosen))), NotifyOne(chosen))
  {
    forall u | 0 <= u < |s.pcs| && Waiting(s.pcs[u]) ensures SomeAsleep(s) {
      WaitersAreAsleep(s, t, u);
      CountPositive(s.pcs, u, IsAsleep);
    }
  }

  // ---- the function itself ----

  predicate WokenWith(s: State, t: nat, saved: nat, r: Rc) {
    t < |s.pcs| && (s.pcs[t] == Woken(saved, r) || (s.pcs[t] == Signalled(saved) && r == OK))
  }

  function AfterResume(s: State, t: nat, saved: nat, r: Rc, cancelled: bool): State
    requires t < |s.pcs|
  {
    if r == EINTR && !cancelled then Move(s, t, Asleep(saved)) else Move(Locked(s, t), t, Out)
  }

  lemma ResumeIsRun(s: State, t: nat, saved: nat, r: Rc, cancelled: bool)
    requires Inv(s) && WokenWith(s, t, saved, r) && s.sem == None && (s.holder == None || s.holder == Some(t))
    ensures AllEnabled(Step, s, ResumeEvents(t, r, cancelled))
    ensures Final(Step, s, ResumeEvents(t, r, cancelled)) == AfterResume(s, t, saved, r, cancelled)
  {
    if r == EINTR && !cancelled {
      BackToSleepIsRun(s, t, saved);
    } else {
      assert Fits(s, t);
      var s1 := Step(s, Line(t));
      assert s1.pcs == s.pcs[t := Judge(saved, r)];
      DecidedIsRun(s1, t, saved, r, cancelled);
      RunCons(Step, s, Line(t), [Decide(t, cancelled)] + Three(t));
      assert s1.pcs[t := Out] == s.pcs[t := Out];
    }
  }

  lemma DecidedIsRun(s: State, t: nat, saved: nat, r: Rc, cancelled: bool)
    requires t < |s.pcs| && s.pcs[t] == Judge(saved, r) && !(r == EINTR && !cancelled)
    requires (s.holder == None || s.holder == Some(t)) && Fits(s, t)
    requires s.holder == None || !s.recursive ==> s.count == 0
    ensures AllEnabled(Step, s, [Decide(t, cancelled)] + Three(t))
    ensures Final(Step, s, [Decide(t, cancelled)] + Three(t)) == Move(Locked(s, t), t, Out).(sem := None)
  {
    var s2 := Step(s, Decide(t, cancelled));
    assert s2.pcs == s.pcs[t := Relock(saved, Reported(r))];
    ReturnIsRun(s2, t, saved, Reported(r));
    assert s2.pcs[t := Out] == s.pcs[t := Out];
    RunCons(Step, s, Decide(t, cancelled), Three(t));
  }

  /** Lines 124-129. */
  lemma ReturnIsRun(s: State, t: nat, saved: nat, r: Rc)
    requires t < |s.pcs| && s.pcs[t] == Relock(saved, r) && (s.holder == None || s.holder == Some(t)) && Fits(s, t)
    requires s.holder == None || !s.recursive ==> s.count == 0
    ensures AllEnabled(Step, s, Three(t))
    ensures Final(Step, s, Three(t)) == Move(Locked(s, t), t, Out).(sem := None)
  {
    var s1 := Step(s, Line(t));
    assert s1.pcs == s.pcs[t := Leave(saved, r)];
    var s2 := Step(s1, Line(t));
    assert s2.pcs == s.pcs[t := Restore(saved, r)];
    var s3 := Step(s2, Line(t));
    assert s3.pcs == s.pcs[t := Out];
    RunCons(Step, s2, Line(t), []);
    RunCons(Step, s1, Line(t), [Line(t)] + []);
    RunCons(Step, s, Line(t), [Line(t)] + ([Line(t)] + []));
  }

  /** The mutex as _rthread_cond_timedwait sees and changes it, with cond->sem free between the
      calls. */
  class Condition {
    const recursive: bool
    var holder: Option<nat>
    var count: nat
    ghost var view: State

    ghost predicate Valid()
      reads this
    {
      recursive == view.recursive && holder == view.holder && count == view.count && Inv(view) && view.sem == None
    }

    constructor (isRecursive: bool, threads: nat)
      ensures Valid() && Init(view) && |view.pcs| == threads
    {
      recursive := isRecursive;
      holder, count := None, 0;
      view := State(isRecursive, None, 0, None, seq(threads, i => Out));
    }

    /** Lines 97-109, up to going to sleep. */
    method BeginWait(t: nat) returns (mutexCount: nat)
      requires Valid() && Enabled(view, CallWait(t))
      modifies this
      ensures Valid() && view == AfterWait(old(view), t) && view.pcs[t] == Asleep(mutexCount)
      ensures mutexCount == old(count)
    {
      WaitIsRun(view, t, []);
      RunInv(view, WaitEvents(t, []));
      view := AfterWait(view, t);
      mutexCount := 0;
      if recursive { mutexCount := count; }
      // pthread_mutex_unlock
      if recursive && count > 0 { count := count - 1; } else { holder := None; }
    }

    /** Lines 109-133 after waking up with the result error; None: back to sleep, else what the call
        returns. */
    method ResumeWait(t: nat, mutexCount: nat, error: Rc, cancelled: bool) returns (result: Option<Rc>)
      requires Valid() && WokenWith(view, t, mutexCount, error) && (holder == None || holder == Some(t))
      modifies this
      ensures Valid() && view == AfterResume(old(view), t, mutexCount, error, cancelled)
      ensures result == None <==> error == EINTR && !cancelled
      ensures result == Some(ETIMEDOUT) <==> error == ETIMEDOUT
      ensures result != Some(EINTR)
      ensures result.Some? ==> holder == Some(t) && count == mutexCount
    {
      assert Fits(view, t);
      ResumeIsRun(view, t, mutexCount, error, cancelled);
      RunInv(view, ResumeEvents(t, error, cancelled));
      view := AfterResume(view, t, mutexCount, error, cancelled);
      if error == EINTR && !cancelled { return None; }
      var rv := OK;
      if error != EINTR { rv := error; }
      // pthread_mutex_lock
      if holder == Some(t) { count := count + 1; } else { holder := Some(t); }
      if recursive { count := mutexCount; }
      result := Some(rv);
    }
  }
}
