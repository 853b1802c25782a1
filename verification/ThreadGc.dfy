/** pthread/rthread_thread.c, lines 132-156 and 224-322: how a thread that has exited is retired,
    by pthread_join, pthread_detach, its own exit and the reaper.

    A step machine over any number of threads in which every thread is the target of at most one
    call of pthread_join or pthread_detach; the parts guarded by flags_lock or _thread_gc_lock
    are single steps. */
module ThreadGc {
  import opened Options
  import opened Runs

  /** The thread's own progress: pthread_exit stores retval and calls _rthread_release. */
  datatype Life =
    | Running
    | Release            // line 147
    | ToFree             // line 150
    | ToPost             // line 154
    | ToExit             // pthread/rthread_internal.c:166, phal_thread_exit on the thread's own record
    | Gone

  /** Invalid: EINVAL; WaitFailed: the error of _sem_wait. */
  datatype Outcome = Joined(value: Option<int>) | Invalid | WaitFailed | Detached

  /** The one join or detach call on the thread; freed: it put the thread on the gc list. */
  datatype Claim =
    | Unused
    | JoinStart                                  // line 283
    | JoinWait                                   // line 285
    | JoinRead                                   // lines 287-295
    | JoinFree(value: Option<int>)               // line 296
    | DetachStart                                // lines 309-319
    | DetachFree                                 // line 315
    | Finished(outcome: Outcome, freed: bool)

  /** done and detached are the flags, units the value of donesem; entered, removed and destroyed
      count insertions into the gc list, removals and calls of phal_thread_destroy. */
  datatype Thread = Thread(done: bool, detached: bool, units: nat, retval: Option<int>, life: Life, claim: Claim,
                           entered: nat, removed: nat, destroyed: nat)

  datatype State = State(threads: seq<Thread>, gc: seq<nat>, initial: nat)

  datatype Event =
    | Exit(t: nat, value: int)
    | Line(t: nat)                        // the exiting thread's next line
    | CallJoin(t: nat)
    | CallDetach(t: nat)
    | ClaimLine(t: nat, fails: bool)      // the next line of the call on t; fails: _sem_wait returns an error
    | Reap(t: nat)                        // lines 230-235
    | Destroy(t: nat)                     // lines 236-251

  predicate Enabled(s: State, e: Event) {
    && e.t < |s.threads|
    && var th := s.threads[e.t];
       match e
       case Exit(_, _) => th.life.Running?
       case Line(_) => th.life.Release? || th.life.ToFree? || th.life.ToPost? || th.life.ToExit?
       case CallJoin(_) => th.claim.Unused?
       case CallDetach(_) => th.claim.Unused?
       case ClaimLine(_, fails) =>
         && !th.claim.Unused? && !th.claim.Finished? && (fails ==> th.claim.JoinWait?)
         && (th.claim.JoinWait? && !fails ==> th.units > 0)
       case Reap(t) => t in s.gc && th.done
       case Destroy(t) => th.removed > th.destroyed && t != s.initial
  }

  function Put(s: State, t: nat, th: Thread): State
    requires t < |s.threads|
  {
    s.(threads := s.threads[t := th])
  }

  /** _rthread_free. */
  function Free(s: State, t: nat, th: Thread): State
    requires t < |s.threads|
  {
    Put(s, t, th.(entered := th.entered + 1)).(gc := s.gc + [t])
  }

  function Without(q: seq<nat>, t: nat): seq<nat> {
    if q == [] then [] else if q[0] == t then q[1..] else [q[0]] + Without(q[1..], t)
  }

  function LineStep(s: State, t: nat): State
    requires Enabled(s, Line(t))
  {
    var th := s.threads[t];
    match th.life
    case Release =>
      if th.detached then Put(s, t, th.(life := ToFree)) else Put(s, t, th.(done := true, life := ToPost))
    case ToFree => Free(s, t, th.(life := ToExit))
    case ToPost => Put(s, t, th.(units := th.units + 1, life := ToExit))
    case ToExit => Put(s, t, th.(life := Gone))
  }

  function ClaimStep(s: State, t: nat, fails: bool): State
    requires Enabled(s, ClaimLine(t, fails))
  {
    var th := s.threads[t];
    match th.claim
    case JoinStart => Put(s, t, th.(claim := if th.detached then Finished(Invalid, false) else JoinWait))
    case JoinWait =>
      if fails then Put(s, t, th.(claim := Finished(WaitFailed, false)))
      else Put(s, t, th.(claim := JoinRead, units := th.units - 1))
    case JoinRead =>
      Put(s, t, th.(claim := if th.detached then Finished(Joined(th.retval), false) else JoinFree(th.retval)))
    case JoinFree(value) => Free(s, t, th.(claim := Finished(Joined(value), true)))
    case DetachStart =>
      if th.detached then Put(s, t, th.(claim := Finished(Invalid, false)))
      else if th.done then Put(s, t, th.(claim := DetachFree))
      else Put(s, t, th.(detached := true, claim := Finished(Detached, false)))
    case _ => Free(s, t, th.(claim := Finished(Detached, true)))
  }

  function Step(s: State, e: Event): State
    requires Enabled(s, e)
  {
    var th := s.threads[e.t];
    match e
    case Exit(t, value) => Put(s, t, th.(retval := Some(value), life := Release))
    case Line(t) => LineStep(s, t)
    case CallJoin(t) => Put(s, t, th.(claim := JoinStart))
    case CallDetach(t) => Put(s, t, th.(claim := DetachStart))
    case ClaimLine(t, fails) => ClaimStep(s, t, fails)
    case Reap(t) => Put(s, t, th.(removed := th.removed + 1)).(gc := Without(s.gc, t))
    case Destroy(t) => Put(s, t, th.(destroyed := th.destroyed + 1))
  }

  /** Threads as pthread_create makes them, detached from the start or not. */
  predicate Init(s: State) {
    && s.gc == []
    && forall t :: 0 <= t < |s.threads| ==>
         s.threads[t] == Thread(false, s.threads[t].detached, 0, None, Running, Unused, 0, 0, 0)
  }

  // ---- invariants ----

  predicate InCall(c: Claim) { !c.Unused? && !c.Finished? }

  /** Past _rthread_release. */
  predicate Released(l: Life) { l.ToExit? || l.Gone? }

  /** What holds of each thread by itself. */
  predicate Fits(th: Thread) {
    && (th.retval.Some? <==> !th.life.Running?)
    && (th.life.Running? || th.life.Release? ==> !th.done && th.units == 0)
    && (th.life.ToFree? ==> th.detached && !th.done)
    && (th.life.ToPost? ==> th.done && th.units == 0)
    && (Released(th.life) ==> th.done != th.detached)
    && !(th.done && th.detached)
    && th.units <= 1 && (th.units > 0 ==> Released(th.life) && th.done)
    && (Released(th.life) && th.done && (th.claim.Unused? || th.claim.JoinStart? || th.claim.JoinWait?) ==>
          th.units == 1)
    && (th.claim.JoinRead? || th.claim.JoinFree? || th.claim.DetachFree? ==> th.done)
    && (th.claim.JoinRead? || th.claim.JoinFree? ==> Released(th.life) && th.units == 0)
    && (th.claim.JoinFree? ==> th.claim.value == th.retval)
    && (th.claim.Finished? && th.claim.outcome.Joined? ==> th.claim.outcome.value == th.retval && th.retval.Some?)
    && (th.claim.Finished? && th.claim.freed ==>
          th.done && th.claim.outcome != Invalid && th.claim.outcome != WaitFailed)
    && (th.claim.JoinWait? || th.claim.JoinRead? || th.claim.JoinFree? ==> !th.detached)
    && (th.claim.Finished? && th.claim.outcome.Joined? ==> Released(th.life))
    && th.entered == (if th.detached then (if Released(th.life) then 1 else 0)
                      else if th.claim.Finished? && th.claim.freed then 1 else 0)
    && th.destroyed <= th.removed <= th.entered && (th.removed > 0 ==> th.done)
  }

  ghost predicate Inv(s: State) {
    && (forall t :: 0 <= t < |s.threads| ==> Fits(s.threads[t]))
    && Distinct(s.gc)
    && (forall t :: t in s.gc ==> t < |s.threads|)
    && (s.initial < |s.threads| ==> s.threads[s.initial].destroyed == 0)
    && (forall t :: 0 <= t < |s.threads| ==> (t in s.gc <==> s.threads[t].entered > s.threads[t].removed))
  }

  lemma InitInv(s: State)
    requires Init(s)
    ensures Inv(s)
  {
  }

  predicate Distinct(q: seq<nat>) {
    forall i, j :: 0 <= i < j < |q| ==> q[i] != q[j]
  }

  lemma {:induction false} WithoutMembers(q: seq<nat>, t: nat)
    requires Distinct(q)
    ensures forall x :: x in Without(q, t) <==> x in q && x != t
    ensures Distinct(Without(q, t))
  {
    if q != [] {
      assert forall x :: x in q <==> x == q[0] || x in q[1..];
      assert q[0] !in q[1..];
      if q[0] != t {
        WithoutMembers(q[1..], t);
        DistinctCons(q[0], Without(q[1..], t));
      }
    }
  }

  lemma DistinctCons(x: nat, q: seq<nat>)
    requires Distinct(q) && x !in q
    ensures Distinct([x] + q) && forall y :: y in [x] + q <==> y == x || y in q
  {
  }

  lemma StepOthers(s: State, e: Event)
    requires Enabled(s, e)
    ensures |Step(s, e).threads| == |s.threads|
    ensures forall t :: 0 <= t < |s.threads| && t != e.t ==> Step(s, e).threads[t] == s.threads[t]
  {
  }

  lemma ClaimFits(s: State, t: nat, fails: bool)
    requires Enabled(s, ClaimLine(t, fails)) && Fits(s.threads[t])
    ensures Fits(Step(s, ClaimLine(t, fails)).threads[t])
  {
  }

  /** The step keeps its own thread's invariant, */
  lemma StepFits(s: State, e: Event)
    requires Inv(s) && Enabled(s, e)
    ensures |Step(s, e).threads| == |s.threads| && Fits(Step(s, e).threads[e.t])
    ensures forall t :: 0 <= t < |s.threads| && t != e.t ==> Step(s, e).threads[t] == s.threads[t]
  {
    StepOthers(s, e);
    assert Fits(s.threads[e.t]);
    if e.ClaimLine? { ClaimFits(s, e.t, e.fails); }
  }

  /** and the list's. */
  lemma StepList(s: State, e: Event)
    requires Inv(s) && Enabled(s, e)
    ensures |Step(s, e).threads| == |s.threads| && Distinct(Step(s, e).gc)
    ensures forall t :: t in Step(s, e).gc ==> t < |s.threads|
    ensures forall t :: 0 <= t < |s.threads| ==>
      (t in Step(s, e).gc <==> Step(s, e).threads[t].entered > Step(s, e).threads[t].removed)
  {
    assert Fits(s.threads[e.t]);
    if e.Reap? { WithoutMembers(s.gc, e.t); }
  }

  lemma StepInv(s: State, e: Event)
    requires Inv(s) && Enabled(s, e)
    ensures Inv(Step(s, e))
  {
    StepFits(s, e);
    StepList(s, e);
  }

  // ---- runs ----

  ghost predicate Reachable(s: State) {
    EndsRun(Init, Step, s)
  }

  lemma ReachableInv(s: State)
    requires Reachable(s)
    ensures Inv(s)
  {
    forall s0: State | Init(s0) ensures Inv(s0) { InitInv(s0); }
    forall x: State, e: Event | Inv(x) && Enabled(x, e) ensures Inv(Step(x, e)) { StepInv(x, e); }
    EndKeeps(Init, Step, Inv, s);
  }

  /** A thread gets onto the gc list at most once and is destroyed at most once, and only after
      THREAD_DONE. */
  lemma RetiredOnce(s: State, t: nat)
    requires Reachable(s) && t < |s.threads|
    ensures s.threads[t].entered <= 1 && s.threads[t].destroyed <= 1
    ensures s.threads[t].destroyed > 0 ==> s.threads[t].done && t !in s.gc
    ensures Distinct(s.gc)
  {
    ReachableInv(s);
    assert Fits(s.threads[t]);
  }

  /** While a join or detach call looks at the thread, the thread has not been destroyed. */
  lemma CallsSeeLiveThreads(s: State, t: nat)
    requires Reachable(s) && t < |s.threads| && InCall(s.threads[t].claim)
    ensures s.threads[t].removed == 0 && s.threads[t].destroyed == 0
  {
    ReachableInv(s);
    assert Fits(s.threads[t]);
  }

  /** A successful join has delivered the value the thread exited with. */
  lemma JoinReturnsExitValue(s: State, t: nat)
    requires Reachable(s) && t < |s.threads| && s.threads[t].claim.Finished? && s.threads[t].claim.outcome.Joined?
    ensures s.threads[t].retval.Some? && s.threads[t].claim.outcome.value == s.threads[t].retval
  {
    ReachableInv(s);
    assert Fits(s.threads[t]);
  }

  // ---- what a whole join or detach call returns ----

  /** A join call waits for donesem, or reads, only for a thread that is not detached and will post. */
  lemma OnlyJoinableAreWaitedFor(s: State, t: nat)
    requires Reachable(s) && t < |s.threads|
    requires s.threads[t].claim.JoinWait? || s.threads[t].claim.JoinRead? || s.threads[t].claim.JoinFree?
    ensures !s.threads[t].detached
  {
    ReachableInv(s);
    assert Fits(s.threads[t]);
  }

  /** In a join call on a thread that was detached (or not) when the call began. */
  predicate Joining(th: Thread, detached: bool) {
    && th.detached == detached
    && (th.claim.JoinStart? || (!detached && (th.claim.JoinWait? || th.claim.JoinRead? || th.claim.JoinFree?)))
  }

  predicate JoinEnded(th: Thread, detached: bool, failed: bool) {
    && th.claim.Finished? && th.detached == detached
    && th.claim.outcome == (if detached then Invalid else if failed then WaitFailed else Joined(th.retval))
    && (th.claim.freed <==> !detached && !failed)
  }

  predicate DetachEnded(th: Thread, detached: bool) {
    && th.claim.Finished? && th.claim.outcome == (if detached then Invalid else Detached)
    && (detached ==> th.detached && !th.claim.freed)
    && (!detached ==> if th.claim.freed then th.done && !th.detached else th.detached)
  }

  lemma JoiningStep(s: State, e: Event, t: nat, detached: bool)
    requires Inv(s) && t < |s.threads| && Joining(s.threads[t], detached) && Enabled(s, e)
    ensures |Step(s, e).threads| == |s.threads|
    ensures var th := Step(s, e).threads[t];
      if e == ClaimLine(t, true) then JoinEnded(th, detached, true)
      else Joining(th, detached) || JoinEnded(th, detached, false)
  {
    StepOthers(s, e);
    assert Fits(s.threads[t]);
  }

  ghost predicate JoinIsOver(s: State, t: nat, detached: bool, failed: bool) {
    Inv(s) && t < |s.threads| && JoinEnded(s.threads[t], detached, failed)
  }

  lemma JoinOverStep(s: State, e: Event, t: nat, detached: bool, failed: bool)
    requires JoinIsOver(s, t, detached, failed) && Enabled(s, e)
    ensures JoinIsOver(Step(s, e), t, detached, failed)
  {
    StepInv(s, e);
    StepOthers(s, e);
    assert Fits(s.threads[t]);
  }

  lemma JoinStaysOver(s: State, t: nat, detached: bool, failed: bool, es: seq<Event>)
    requires JoinIsOver(s, t, detached, failed) && AllEnabled(Step, s, es)
    ensures JoinIsOver(Final(Step, s, es), t, detached, failed)
  {
    var inv := (x: State) => JoinIsOver(x, t, detached, failed);
    forall x: State, e: Event | inv(x) && Enabled(x, e) ensures inv(Step(x, e)) {
      JoinOverStep(x, e, t, detached, failed);
    }
    RunKeeps(Step, inv, s, es);
  }

  lemma NoMoreLines(s: State, t: nat, detached: bool, failed: bool, es: seq<Event>)
    requires JoinIsOver(s, t, detached, failed) && AllEnabled(Step, s, es)
    ensures ClaimLine(t, true) !in es
  {
    forall i | 0 <= i < |es| ensures es[i] != ClaimLine(t, true) {
      var s1 := RunSplit(Step, s, es, i);
      JoinStaysOver(s, t, detached, failed, es[..i]);
      assert Enabled(s1, es[i]);
    }
  }

  lemma {:induction false} JoinRuns(s: State, t: nat, detached: bool, es: seq<Event>)
    requires Inv(s) && t < |s.threads| && Joining(s.threads[t], detached) && AllEnabled(Step, s, es)
    ensures t < |Final(Step, s, es).threads|
    ensures var th := Final(Step, s, es).threads[t];
      th.claim.Finished? ==> JoinEnded(th, detached, ClaimLine(t, true) in es)
    decreases |es|
  {
    if es != [] {
      var s1 := Step(s, es[0]);
      JoiningStep(s, es[0], t, detached);
      StepInv(s, es[0]);
      assert es == [es[0]] + es[1..];
      if Joining(s1.threads[t], detached) {
        JoinRuns(s1, t, detached, es[1..]);
      } else {
        JoinStaysOver(s1, t, detached, es[0] == ClaimLine(t, true), es[1..]);
        NoMoreLines(s1, t, detached, es[0] == ClaimLine(t, true), es[1..]);
      }
    }
  }

  /** A whole call of pthread_join, whatever the others do: EINVAL exactly for a thread that was
      detached when the call began, the error of the wait exactly if the wait failed, and otherwise
      the exit value, with the thread put on the gc list by this call. */
  lemma JoinResult(s: State, t: nat, es: seq<Event>)
    requires Reachable(s) && Enabled(s, CallJoin(t)) && AllEnabled(Step, Step(s, CallJoin(t)), es)
    requires var end := Final(Step, Step(s, CallJoin(t)), es); t < |end.threads| && end.threads[t].claim.Finished?
    ensures var th := Final(Step, Step(s, CallJoin(t)), es).threads[t];
      && (th.claim.outcome == Invalid <==> s.threads[t].detached)
      && (th.claim.outcome == WaitFailed <==> ClaimLine(t, true) in es)
      && (th.claim.outcome == Joined(th.retval) && th.claim.freed
          <==> !s.threads[t].detached && ClaimLine(t, true) !in es)
  {
    var s1 := Step(s, CallJoin(t));
    ReachableInv(s);
    StepInv(s, CallJoin(t));
    JoinRuns(s1, t, s.threads[t].detached, es);
    if s.threads[t].detached && ClaimLine(t, true) in es { DetachedNeverWaits(s1, t, es); }
  }

  lemma DetachedNeverWaits(s: State, t: nat, es: seq<Event>)
    requires Inv(s) && t < |s.threads| && Joining(s.threads[t], true) && AllEnabled(Step, s, es)
    ensures ClaimLine(t, true) !in es
  {
    forall i | 0 <= i < |es| ensures es[i] != ClaimLine(t, true) {
      var s1 := RunSplit(Step, s, es, i);
      DetachedKept(s, t, es[..i]);
      assert Enabled(s1, es[i]);
    }
  }

  ghost predicate JoinOnDetached(s: State, t: nat) {
    && Inv(s) && t < |s.threads| && s.threads[t].detached
    && (s.threads[t].claim.JoinStart? || s.threads[t].claim.Finished?)
  }

  lemma DetachedKept(s: State, t: nat, es: seq<Event>)
    requires JoinOnDetached(s, t) && AllEnabled(Step, s, es)
    ensures JoinOnDetached(Final(Step, s, es), t)
  {
    var inv := (x: State) => JoinOnDetached(x, t);
    forall x: State, e: Event | inv(x) && Enabled(x, e) ensures inv(Step(x, e)) {
      StepInv(x, e);
      StepOthers(x, e);
    }
    RunKeeps(Step, inv, s, es);
  }

  predicate Detaching(th: Thread, detached: bool) {
    || (th.claim.DetachStart? && th.detached == detached)
    || (th.claim.DetachFree? && !detached && !th.detached)
  }

  ghost predicate DetachCall(s: State, t: nat, detached: bool) {
    Inv(s) && t < |s.threads| && (Detaching(s.threads[t], detached) || DetachEnded(s.threads[t], detached))
  }

  lemma DetachStep(s: State, e: Event, t: nat, detached: bool)
    requires DetachCall(s, t, detached) && Enabled(s, e)
    ensures DetachCall(Step(s, e), t, detached)
  {
    StepInv(s, e);
    StepOthers(s, e);
    assert Fits(s.threads[t]);
  }

  /** A whole call of pthread_detach: EINVAL exactly for a thread that was detached when it began;
      otherwise the thread is marked, or has exited and been put on the gc list by this call. */
  lemma DetachResult(s: State, t: nat, es: seq<Event>)
    requires Reachable(s) && Enabled(s, CallDetach(t)) && AllEnabled(Step, Step(s, CallDetach(t)), es)
    requires var end := Final(Step, Step(s, CallDetach(t)), es); t < |end.threads| && end.threads[t].claim.Finished?
    ensures DetachEnded(Final(Step, Step(s, CallDetach(t)), es).threads[t], s.threads[t].detached)
  {
    var detached := s.threads[t].detached;
    ReachableInv(s);
    StepInv(s, CallDetach(t));
    var inv := (x: State) => DetachCall(x, t, detached);
    forall x: State, e: Event | inv(x) && Enabled(x, e) ensures inv(Step(x, e)) { DetachStep(x, e, t, detached); }
    RunKeeps(Step, inv, Step(s, CallDetach(t)), es);
  }

  lemma ExitValueIsKept(s: State, e: Event, t: nat)
    requires Reachable(s) && Enabled(s, e) && t < |s.threads|
    ensures |Step(s, e).threads| == |s.threads|
    ensures s.threads[t].retval.Some? ==> Step(s, e).threads[t].retval == s.threads[t].retval
    ensures s.threads[t].retval == None ==>
      Step(s, e).threads[t].retval == if e.Exit? && e.t == t then Some(e.value) else None
  {
    ReachableInv(s);
    assert Fits(s.threads[t]);
  }

  /** Which threads on the list the reaper can take: those that were not detached when they
      exited.  _rthread_release sets THREAD_DONE only for those. */
  lemma ReapableExactly(s: State, t: nat)
    requires Reachable(s) && t < |s.threads| && t in s.gc
    ensures Enabled(s, Reap(t)) <==> !s.threads[t].detached
  {
    ReachableInv(s);
    assert Fits(s.threads[t]);
  }

  /** A thread that exited detached is on the list, and stays there for ever. */
  lemma DetachedIsNeverReaped(s: State, t: nat, es: seq<Event>)
    requires Inv(s) && t < |s.threads| && s.threads[t].detached && Released(s.threads[t].life)
    requires AllEnabled(Step, s, es)
    ensures t < |Final(Step, s, es).threads| && t in Final(Step, s, es).gc && Final(Step, s, es).threads[t].removed == 0
  {
    var inv := (x: State) => Inv(x) && t < |x.threads| && x.threads[t].detached && Released(x.threads[t].life);
    forall x: State, e: Event | inv(x) && Enabled(x, e) ensures inv(Step(x, e)) {
      StepInv(x, e);
      StepFits(x, e);
    }
    RunKeeps(Step, inv, s, es);
    assert Fits(Final(Step, s, es).threads[t]);
  }

  /** How a thread gets there: any initial state, any thread created detached. */
  lemma DetachedExits(s0: State, t: nat, value: int) returns (es: seq<Event>, s: State)
    requires Init(s0) && t < |s0.threads| && s0.threads[t].detached
    ensures AllEnabled(Step, s0, es) && Final(Step, s0, es) == s && |s.threads| == |s0.threads|
    ensures s.threads[t].detached && Released(s.threads[t].life) && t in s.gc && !Enabled(s, Reap(t))
  {
    var s1 := Step(s0, Exit(t, value));
    var s2 := Step(s1, Line(t));
    s := Step(s2, Line(t));
    es := [Exit(t, value), Line(t), Line(t)];
    RunThrough(Step, es, [s0, s1, s2, s]);
  }

  // ---- the exiting thread's own use of its record ----

  /** The last uses that an exiting thread makes of its own record: posting donesem in line 154, and
      phal_thread_exit in pthread/rthread_internal.c:166. */
  datatype Use = Post | ThreadExit

  predicate StillToCome(use: Use, l: Life) {
    match use
    case Post => l.Running? || l.Release? || l.ToPost?
    case ThreadExit => !l.Gone?
  }

  /** The use is still to come, and the one call on the thread is not over without having freed the
      record; for the post, it is not a join either, which would have to wait for the post. */
  predicate Doomable(s: State, t: nat, use: Use)
    requires t < |s.threads|
  {
    var th := s.threads[t];
    && t != s.initial && !th.detached && StillToCome(use, th.life)
    && (th.claim.Finished? ==> th.claim.freed)
    && (use == Post ==> th.claim.Unused? || th.claim.DetachStart? || th.claim.DetachFree? || th.claim.Finished?)
  }

  /** The next event that leads to its destruction. */
  function NextDoom(s: State, t: nat): Event
    requires t < |s.threads|
  {
    var th := s.threads[t];
    if th.life.Running? then Exit(t, 0)
    else if th.life.Release? || (th.claim.JoinWait? && th.units == 0) then Line(t)
    else if th.claim.Unused? then CallDetach(t)
    else if !th.claim.Finished? then ClaimLine(t, false)
    else if th.removed == 0 then Reap(t)
    else Destroy(t)
  }

  function LifeRank(l: Life): nat {
    match l
    case Running => 3
    case Release => 2
    case ToPost => 1
    case _ => 0
  }

  function ClaimRank(c: Claim): nat {
    match c
    case Unused => 5
    case JoinStart => 4
    case JoinWait => 3
    case JoinRead => 2
    case JoinFree(_) => 1
    case DetachStart => 2
    case DetachFree => 1
    case Finished(_, _) => 0
  }

  function DoomRank(th: Thread): nat {
    LifeRank(th.life) + ClaimRank(th.claim) + (if th.removed == 0 then 1 else 0) + (if th.destroyed == 0 then 1 else 0)
  }

  lemma DoomStep(s: State, t: nat, use: Use)
    requires Inv(s) && t < |s.threads| && Doomable(s, t, use) && s.threads[t].destroyed == 0
    ensures Enabled(s, NextDoom(s, t)) && |Step(s, NextDoom(s, t)).threads| == |s.threads|
    ensures Doomable(Step(s, NextDoom(s, t)), t, use)
    ensures DoomRank(Step(s, NextDoom(s, t)).threads[t]) < DoomRank(s.threads[t])
  {
    assert Fits(s.threads[t]);
  }

  lemma {:induction false} Doom(s: State, t: nat, use: Use) returns (es: seq<Event>, s': State)
    requires Inv(s) && t < |s.threads| && Doomable(s, t, use)
    ensures AllEnabled(Step, s, es) && Final(Step, s, es) == s' && Inv(s')
    ensures |s'.threads| == |s.threads| && s'.threads[t].destroyed > 0 && StillToCome(use, s'.threads[t].life)
    decreases DoomRank(s.threads[t])
  {
    if s.threads[t].destroyed > 0 {
      es, s' := [], s;
    } else {
      var e := NextDoom(s, t);
      DoomStep(s, t, use);
      StepInv(s, e);
      es, s' := Doom(Step(s, e), t, use);
      RunCons(Step, s, e, es);
      es := [e] + es;
    }
  }

  ghost predicate Safe(s: State, t: nat, use: Use) {
    Inv(s) && t < |s.threads| && !Doomable(s, t, use)
  }

  lemma SafeStep(s: State, t: nat, use: Use, e: Event)
    requires Safe(s, t, use) && Enabled(s, e)
    ensures Safe(Step(s, e), t, use)
  {
    StepInv(s, e);
    StepOthers(s, e);
    assert Fits(s.threads[t]);
  }

  lemma SafeRun(s: State, t: nat, use: Use, es: seq<Event>)
    requires Safe(s, t, use) && AllEnabled(Step, s, es)
    ensures Safe(Final(Step, s, es), t, use)
  {
    var inv := (x: State) => Safe(x, t, use);
    forall x: State, e: Event | inv(x) && Enabled(x, e) ensures inv(Step(x, e)) { SafeStep(x, t, use, e); }
    RunKeeps(Step, inv, s, es);
  }

  /** In this run the record is destroyed with the use still to come. */
  ghost predicate DestroyedUnder(s: State, t: nat, use: Use, es: seq<Event>) {
    && AllEnabled(Step, s, es) && t < |Final(Step, s, es).threads|
    && Final(Step, s, es).threads[t].destroyed > 0 && StillToCome(use, Final(Step, s, es).threads[t].life)
  }

  /** Exactly when a thread's record can be destroyed under it. */
  lemma DestroyedUnderExactly(s: State, t: nat, use: Use)
    requires Reachable(s) && t < |s.threads|
    ensures (exists es: seq<Event> :: DestroyedUnder(s, t, use, es)) <==> Doomable(s, t, use)
  {
    ReachableInv(s);
    if Doomable(s, t, use) {
      var es, s' := Doom(s, t, use);
      assert DestroyedUnder(s, t, use, es);
    }
    forall es: seq<Event> | DestroyedUnder(s, t, use, es) ensures Doomable(s, t, use) {
      if !Doomable(s, t, use) {
        SafeRun(s, t, use, es);
        SafeNotDestroyed(Final(Step, s, es), t, use);
      }
    }
  }

  lemma SafeNotDestroyed(s: State, t: nat, use: Use)
    requires Safe(s, t, use) && StillToCome(use, s.threads[t].life)
    ensures s.threads[t].destroyed == 0
  {
    assert Fits(s.threads[t]);
  }

  /** Such a run, from any initial state, for any thread but the initial one that is not detached:
      it is about to post the donesem of a record that is gone. */
  lemma PostsAfterDestruction(s0: State, t: nat) returns (es: seq<Event>, s: State)
    requires Init(s0) && t < |s0.threads| && t != s0.initial && !s0.threads[t].detached
    ensures AllEnabled(Step, s0, es) && Final(Step, s0, es) == s && |s.threads| == |s0.threads|
    ensures s.threads[t].life.ToPost? && s.threads[t].destroyed > 0 && Enabled(s, Line(t))
  {
    InitInv(s0);
    es, s := Doom(s0, t, Post);
    assert Fits(s.threads[t]);
  }

  // ---- the reaper ----

  /** The entries that are not done, in order. */
  function Keep(q: seq<nat>, done: set<nat>): seq<nat> {
    if q == [] then [] else (if q[0] in done then [] else [q[0]]) + Keep(q[1..], done)
  }

  function Done(s: State): set<nat> {
    set t: nat | 0 <= t < |s.threads| && s.threads[t].done
  }

  lemma {:induction false} KeepSplits(q: seq<nat>, i: nat, done: set<nat>)
    requires i < |q| && q[i] in done
    ensures Keep(q[..i] + q[i + 1..], done) == Keep(q, done)
  {
    var r := q[..i] + q[i + 1..];
    if i == 0 {
      assert r == q[1..];
    } else {
      assert r[0] == q[0] && r[1..] == q[1..][..i - 1] + q[1..][i..];
      KeepSplits(q[1..], i - 1, done);
    }
  }

  lemma {:induction false} KeepAll(q: seq<nat>, done: set<nat>)
    requires forall k :: 0 <= k < |q| ==> q[k] !in done
    ensures Keep(q, done) == q
  {
    if q != [] {
      KeepAll(q[1..], done);
      assert q == [q[0]] + q[1..];
    }
  }

  lemma {:induction false} WithoutAt(q: seq<nat>, i: nat)
    requires Distinct(q) && i < |q|
    ensures Without(q, q[i]) == q[..i] + q[i + 1..]
  {
    if i != 0 {
      WithoutAt(q[1..], i - 1);
      assert q[..i] + q[i + 1..] == [q[0]] + (q[1..][..i - 1] + q[1..][i..]);
    }
  }

  /** What the reaper makes of thread t. */
  function Reaped(s: State, t: nat): Thread
    requires t < |s.threads|
  {
    var th := s.threads[t];
    if t in s.gc && th.done then
      th.(removed := th.removed + 1, destroyed := th.destroyed + (if t == s.initial then 0 else 1))
    else th
  }

  lemma EntriesAreThreads(s: State)
    requires Inv(s)
    ensures forall k :: 0 <= k < |s.gc| ==> s.gc[k] < |s.threads|
  {
    forall k | 0 <= k < |s.gc| ensures s.gc[k] < |s.threads| { assert s.gc[k] in s.gc; }
  }

  /** One scan of the list, lines 231-233. */
  method FirstDone(list: seq<nat>, done: seq<bool>) returns (i: nat)
    requires forall k :: 0 <= k < |list| ==> list[k] < |done|
    ensures i <= |list| && (forall k :: 0 <= k < i ==> !done[list[k]]) && (i < |list| ==> done[list[i]])
  {
    i := 0;
    while i < |list| && !done[list[i]]
      invariant i <= |list| && forall k :: 0 <= k < i ==> !done[list[k]]
    {
      i := i + 1;
    }
  }

  datatype JoinError = EINVAL | EDEADLK

  /** The fields of the threads' records, by thread, and _thread_gc_list. */
  class ThreadTable {
    const initial: nat
    var done: seq<bool>
    var detached: seq<bool>
    var units: seq<nat>
    var retval: seq<Option<int>>
    var list: seq<nat>
    ghost var view: State

    ghost predicate Fields()
      reads this
    {
      && |done| == |detached| == |units| == |retval| == |view.threads|
      && forall t :: 0 <= t < |done| ==>
           && done[t] == view.threads[t].done && detached[t] == view.threads[t].detached
           && units[t] == view.threads[t].units && retval[t] == view.threads[t].retval
    }

    ghost predicate Valid()
      reads this
    {
      list == view.gc && initial == view.initial && Inv(view) && Fields()
    }

    constructor (s: State)
      requires Init(s)
      ensures Valid() && view == s
    {
      initial, list, view := s.initial, [], s;
      done, units, retval := seq(|s.threads|, i => false), seq(|s.threads|, i => 0), seq(|s.threads|, i => None);
      detached := seq(|s.threads|, i requires 0 <= i < |s.threads| => s.threads[i].detached);
    }

    /** _rthread_release, lines 147-155. */
    method Release(t: nat)
      requires Valid() && Enabled(view, Line(t)) && view.threads[t].life.Release?
      modifies this
      ensures Valid() && Enabled(Step(old(view), Line(t)), Line(t)) && view == Step(Step(old(view), Line(t)), Line(t))
    {
      Advance(Line(t));
      if detached[t] {
        list := list + [t];
      } else {
        done := done[t := true];
        units := units[t := units[t] + 1];
      }
      Advance(Line(t));
    }

    ghost method Advance(e: Event)
      requires Inv(view) && Enabled(view, e)
      modifies this`view
      ensures view == Step(old(view), e) && Inv(view)
    {
      StepInv(view, e);
      view := Step(view, e);
    }

    /** pthread_detach, lines 309-319: false for EINVAL. */
    method Detach(t: nat) returns (ok: bool)
      requires Valid() && t < |view.threads| && view.threads[t].claim == DetachStart
      modifies this
      ensures Valid() && (ok <==> !old(detached)[t])
      ensures var one := Step(old(view), ClaimLine(t, false));
        view == if old(done)[t] then Step(one, ClaimLine(t, false)) else one
    {
      assert Fits(view.threads[t]);
      Advance(ClaimLine(t, false));
      ok := true;
      if detached[t] {
        ok := false;
      } else if done[t] {
        list := list + [t];
        Advance(ClaimLine(t, false));
      } else {
        detached := detached[t := true];
      }
    }

    /** pthread_join, lines 277-284, called by self: its error, or None to go on to the wait. */
    method JoinCheck(thread: Option<nat>, self: nat) returns (e: Option<JoinError>)
      requires Valid()
      requires thread.Some? && thread != Some(self) ==>
                 thread.v < |view.threads| && view.threads[thread.v].claim == JoinStart
      modifies this`view
      ensures Valid()
      ensures e == Some(EDEADLK) <==> thread == Some(self)
      ensures e == Some(EINVAL) <==>
                thread == None || (thread != Some(self) && thread.v < |detached| && detached[thread.v])
      ensures thread == None || thread == Some(self) ==> view == old(view)
      ensures thread.Some? && thread != Some(self) ==>
                && Enabled(old(view), ClaimLine(thread.v, false))
                && view == Step(old(view), ClaimLine(thread.v, false))
                && view.threads[thread.v].claim == if e == None then JoinWait else Finished(Invalid, false)
    {
      if thread == None { return Some(EINVAL); }
      if thread == Some(self) { return Some(EDEADLK); }
      Advance(ClaimLine(thread.v, false));
      e := if detached[thread.v] then Some(EINVAL) else None;
    }

    /** pthread_join, lines 285-296, once the wait for donesem succeeds. */
    method JoinAfterWait(t: nat) returns (value: Option<int>)
      requires Valid() && t < |view.threads| && view.threads[t].claim == JoinWait && units[t] > 0
      modifies this
      ensures Valid() && value.Some? && value == old(retval)[t]
      ensures t < |detached| && !detached[t]
      ensures view.threads[t].claim == Finished(Joined(value), true) && list == old(list) + [t]
      ensures view.threads == old(view).threads[t := view.threads[t]] && units[t] == old(units)[t] - 1
    {
      assert Fits(view.threads[t]);
      Advance(ClaimLine(t, false));
      assert Fits(view.threads[t]);
      units := units[t := units[t] - 1];
      value := retval[t];
      Advance(ClaimLine(t, false));
      if !detached[t] {
        list := list + [t];
        Advance(ClaimLine(t, false));
      }
    }

    /** Lines 234-251 for the entry at place i. */
    method ReapAt(i: nat)
      requires Valid() && i < |list| && list[i] < |done| && done[list[i]]
      modifies this`list, this`view
      ensures Valid() && list == old(list)[..i] + old(list)[i + 1..]
      ensures view == old(view).(gc := list,
                                 threads := old(view).threads[old(list)[i] := Reaped(old(view), old(list)[i])])
    {
      var thread := list[i];
      WithoutAt(list, i);
      assert Fits(view.threads[thread]);
      Advance(Reap(thread));
      list := list[..i] + list[i + 1..];
      if thread != initial {
        Advance(Destroy(thread));
      }
    }

    /** _rthread_reaper: the scan starts again after each removal. */
    method Reaper()
      requires Valid()
      modifies this`list, this`view
      ensures Valid() && list == Keep(old(list), Done(old(view)))
      ensures |view.threads| == |old(view).threads|
      ensures forall t :: 0 <= t < |view.threads| ==> view.threads[t] == Reaped(old(view), t)
    {
      ghost var start := view;
      var restart := true;
      while restart
        invariant Valid() && Progress(start, view)
        invariant forall t :: 0 <= t < |done| ==> done[t] == start.threads[t].done
        invariant !restart ==> forall k :: 0 <= k < |list| ==> list[k] < |done| && !done[list[k]]
        decreases |list|, restart
      {
        restart := false;
        EntriesAreThreads(view);
        var i := FirstDone(list, done);
        if i < |list| {
          ProgressMade(start, view, i);
          ReapAt(i);
          restart := true;
        }
      }
      KeepAll(list, Done(start));
    }
  }

  /** Part of the done entries have been dealt with, the rest of the list is as it was. */
  ghost predicate Progress(start: State, now: State) {
    && |now.threads| == |start.threads| && now.initial == start.initial
    && Keep(now.gc, Done(start)) == Keep(start.gc, Done(start))
    && (forall t :: t in now.gc ==> t in start.gc)
    && (forall t :: 0 <= t < |start.threads| ==>
          now.threads[t] == if t in now.gc then start.threads[t] else Reaped(start, t))
  }

  lemma ProgressMade(start: State, now: State, i: nat)
    requires Inv(now) && Progress(start, now)
    requires i < |now.gc| && now.gc[i] < |now.threads| && start.threads[now.gc[i]].done
    ensures now.threads[now.gc[i]].done
    ensures Progress(start, now.(gc := now.gc[..i] + now.gc[i + 1..],
                                 threads := now.threads[now.gc[i] := Reaped(now, now.gc[i])]))
  {
    var t := now.gc[i];
    assert t in now.gc;
    KeepSplits(now.gc, i, Done(start));
    WithoutAt(now.gc, i);
    WithoutMembers(now.gc, t);
  }
}
