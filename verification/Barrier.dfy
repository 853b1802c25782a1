/** pthread/rthread_barrier.c, lines 69-143, over a monitor: the mutex and the condition variable
    at their POSIX meaning.  What a thread does between taking the mutex and giving it back or
    blocking is one step; a thread that is woken up has to take the mutex again before it runs.
    Waiters are kept in the order in which they blocked; which of them a signal wakes is part of
    the step, and waking the first one is an assumption only where a lemma says so. */
module Barrier {
  import opened Bits
  import opened Counting
  import opened Runs

  /** round: the round the thread entered; its local gen is the 32-bit word of it. */
  datatype Pc =
    | Out
    | Asleep(round: nat)
    | Woken(round: nat)

  /** Beside the fields: round is generation before wrapping around; entered, serial and left count
      the threads that entered round g, returned PTHREAD_BARRIER_SERIAL_THREAD from it and
      returned 0 from it. */
  datatype State = State(threshold: i32, inside: i32, out: i32, generation: u32, queue: seq<nat>, pcs: seq<Pc>,
                         round: nat, entered: seq<nat>, serial: seq<nat>, left: seq<nat>)

  /** pick: the place in the queue of the waiter that a signal wakes. */
  datatype Event =
    | Arrive(t: nat, pick: nat)     // lines 110-126, or 110-142 for the last one
    | Resume(t: nat, pick: nat)     // lines 128-142
    | Wake(t: nat)                  // a waiter wakes without a signal

  function Word(round: nat): u32 { round % 0x1_0000_0000 }

  predicate Waiting(pc: Pc) { pc != Out }

  function RoundIs(r: nat): Pc -> bool { (pc: Pc) => pc != Out && pc.round == r }

  function Remove(q: seq<nat>, i: nat): seq<nat>
    requires i < |q|
  {
    q[..i] + q[i + 1..]
  }

  function Find(q: seq<nat>, t: nat): (i: nat)
    requires t in q
    ensures i < |q| && q[i] == t
  {
    if q[0] == t then 0 else 1 + Find(q[1..], t)
  }

  predicate Shape(s: State) {
    && |s.entered| == |s.serial| == |s.left| == s.round + 1
    && (forall i :: 0 <= i < |s.queue| ==> s.queue[i] < |s.pcs| && s.pcs[s.queue[i]].Asleep?)
    && (forall i, j :: 0 <= i < j < |s.queue| ==> s.queue[i] != s.queue[j])
    && (forall t :: 0 <= t < |s.pcs| && s.pcs[t].Asleep? ==> t in s.queue)
    && (forall t :: 0 <= t < |s.pcs| && Waiting(s.pcs[t]) ==> s.pcs[t].round <= s.round)
  }

  predicate Enabled(s: State, e: Event) {
    && Shape(s) && e.t < |s.pcs|
    && match e
       case Arrive(t, pick) => s.pcs[t] == Out && (s.queue != [] ==> pick < |s.queue|)
       case Resume(t, pick) => s.pcs[t].Woken? && (s.queue != [] ==> pick < |s.queue|)
       case Wake(t) => s.pcs[t].Asleep?
  }

  /** pthread_cond_signal. */
  function Signal(s: State, pick: nat): State
    requires Shape(s) && (s.queue != [] ==> pick < |s.queue|)
  {
    if s.queue == [] then s
    else
      var u := s.queue[pick];
      s.(pcs := s.pcs[u := Woken(s.pcs[u].round)], queue := Remove(s.queue, pick))
  }

  /** pthread_cond_wait by t, up to blocking. */
  function Block(s: State, t: nat, round: nat): State
    requires t < |s.pcs|
  {
    s.(pcs := s.pcs[t := Asleep(round)], queue := s.queue + [t])
  }

  function Bump(h: seq<nat>, g: nat): seq<nat>
    requires g < |h|
  {
    h[g := h[g] + 1]
  }

  /** Lines 114-117: the last one in. */
  function Complete(s: State): State
    requires Shape(s)
  {
    s.(inside := 0, out := AddWrap(AddWrap(s.inside, 1), -1), generation := (s.generation + 1) % 0x1_0000_0000,
       round := s.round + 1, entered := Bump(s.entered, s.round) + [0], serial := Bump(s.serial, s.round) + [0],
       left := s.left + [0])
  }

  /** Line 114 for the others: one more inside. */
  function Enter(s: State): State
    requires Shape(s)
  {
    s.(inside := AddWrap(s.inside, 1), entered := Bump(s.entered, s.round))
  }

  /** Lines 128-129: out of the wait. */
  function Depart(s: State, t: nat): State
    requires Shape(s) && t < |s.pcs| && Waiting(s.pcs[t])
  {
    s.(out := AddWrap(s.out, -1), pcs := s.pcs[t := Out], left := Bump(s.left, s.pcs[t].round))
  }

  function Step(s: State, e: Event): State
    requires Enabled(s, e)
  {
    match e
    case Arrive(t, pick) =>
      if AddWrap(s.inside, 1) == s.threshold then Signal(Complete(s), pick)
      else Block(Enter(s), t, s.round)
    case Resume(t, pick) =>
      if Word(s.pcs[t].round) == s.generation then Block(s, t, s.pcs[t].round)
      else Signal(Depart(s, t), pick)
    case Wake(t) =>
      s.(pcs := s.pcs[t := Woken(s.pcs[t].round)], queue := Remove(s.queue, Find(s.queue, t)))
  }

  predicate Init(s: State) {
    && |s.pcs| < 0x7fff_ffff && (forall t :: 0 <= t < |s.pcs| ==> s.pcs[t] == Out)
    && s.inside == 0 && s.out == 0 && s.generation == 0 && s.queue == []
    && s.round == 0 && s.entered == [0] && s.serial == [0] && s.left == [0]
  }

  // ---- invariants for any number of threads ----

  /** The history of round g: everybody who entered it is still waiting, has left it, or was its
      serial thread; a completed round was entered by exactly threshold threads and had one
      serial thread. */
  ghost predicate RoundInv(s: State, g: nat)
    requires Shape(s) && g <= s.round
  {
    && s.entered[g] == Count(s.pcs, RoundIs(g)) + s.left[g] + s.serial[g]
    && (g < s.round ==> s.entered[g] == s.threshold && s.serial[g] == 1)
    && (g == s.round ==> s.entered[g] == s.inside && s.serial[g] == 0 && s.left[g] == 0)
  }

  /** What is kept beside the history. */
  ghost predicate Kept(s: State) {
    && |s.pcs| < 0x7fff_ffff && Shape(s)
    && s.generation == Word(s.round)
    && (s.threshold < 1 ==> s.round == 0)
    && 0 <= s.inside <= |s.pcs|
    && (s.threshold >= 1 ==> s.inside < s.threshold)
  }

  ghost predicate History(s: State)
    requires Shape(s)
  {
    forall g {:trigger RoundInv(s, g)} :: 0 <= g <= s.round ==> RoundInv(s, g)
  }

  ghost predicate Inv(s: State) {
    Kept(s) && History(s)
  }

  lemma InitInv(s: State)
    requires Init(s)
    ensures Inv(s)
  {
    CountZero(s.pcs, RoundIs(0));
    assert RoundInv(s, 0);
  }

  // ---- the shape of the queue ----

  lemma RemoveShape(q: seq<nat>, i: nat)
    requires i < |q| && forall a, b :: 0 <= a < b < |q| ==> q[a] != q[b]
    ensures forall a, b :: 0 <= a < b < |q| - 1 ==> Remove(q, i)[a] != Remove(q, i)[b]
    ensures forall x :: x in Remove(q, i) <==> x in q && x != q[i]
    ensures |Remove(q, i)| == |q| - 1
  {
    var r := Remove(q, i);
    assert forall a :: 0 <= a < |r| ==> r[a] == q[if a < i then a else a + 1];
    forall x | x in q && x != q[i] ensures x in r {
      var a :| 0 <= a < |q| && q[a] == x;
      assert r[if a < i then a else a - 1] == x;
    }
  }

  lemma WakenShape(s: State, i: nat, u: nat)
    requires Shape(s) && i < |s.queue| && u == s.queue[i]
    ensures Shape(s.(pcs := s.pcs[u := Woken(s.pcs[u].round)], queue := Remove(s.queue, i)))
  {
    RemoveShape(s.queue, i);
    var s' := s.(pcs := s.pcs[u := Woken(s.pcs[u].round)], queue := Remove(s.queue, i));
    forall k | 0 <= k < |s'.queue| ensures s'.queue[k] < |s.pcs| && s'.pcs[s'.queue[k]].Asleep? {
      assert s'.queue[k] in s'.queue;
    }
  }

  lemma BlockShape(s: State, t: nat, round: nat)
    requires Shape(s) && t < |s.pcs| && !s.pcs[t].Asleep? && round <= s.round
    ensures Shape(Block(s, t, round))
  {
  }

  lemma CompleteShape(s: State)
    requires Shape(s)
    ensures Shape(Complete(s))
  {
  }

  lemma DepartShape(s: State, t: nat)
    requires Shape(s) && t < |s.pcs| && s.pcs[t].Woken?
    ensures Shape(Depart(s, t))
  {
  }

  // ---- the history ----

  lemma MoveRounds(pcs: seq<Pc>, t: nat, pc: Pc, g: nat)
    requires t < |pcs|
    ensures Count(pcs[t := pc], RoundIs(g)) == Count(pcs, RoundIs(g)) - Bit(RoundIs(g)(pcs[t])) + Bit(RoundIs(g)(pc))
  {
    CountUpdate(pcs, t, pc, RoundIs(g));
  }

  lemma SignalHistory(s: State, pick: nat)
    requires Shape(s) && History(s) && (s.queue != [] ==> pick < |s.queue|)
    ensures Shape(Signal(s, pick)) && History(Signal(s, pick))
  {
    if s.queue != [] {
      var u := s.queue[pick];
      WakenShape(s, pick, u);
      forall g | 0 <= g <= s.round ensures RoundInv(Signal(s, pick), g) {
        assert RoundInv(s, g);
        MoveRounds(s.pcs, u, Woken(s.pcs[u].round), g);
      }
    }
  }

  lemma CompleteHistory(s: State)
    requires Shape(s) && History(s) && s.inside + 1 == s.threshold
    ensures Shape(Complete(s)) && History(Complete(s))
  {
    CompleteShape(s);
    forall g | 0 <= g <= s.round + 1 ensures RoundInv(Complete(s), g) {
      if g <= s.round {
        assert RoundInv(s, g);
      } else {
        CountZero(s.pcs, RoundIs(g));
      }
    }
  }

  lemma EnterHistory(s: State, t: nat)
    requires Kept(s) && History(s) && t < |s.pcs| && s.pcs[t] == Out
    ensures Shape(Block(Enter(s), t, s.round))
    ensures History(Block(Enter(s), t, s.round))
  {
    var s' := Block(Enter(s), t, s.round);
    BlockShape(Enter(s), t, s.round);
    forall g | 0 <= g <= s.round ensures RoundInv(s', g) {
      assert RoundInv(s, g);
      MoveRounds(s.pcs, t, Asleep(s.round), g);
    }
  }

  lemma BlockHistory(s: State, t: nat)
    requires Shape(s) && History(s) && t < |s.pcs| && s.pcs[t].Woken?
    ensures Shape(Block(s, t, s.pcs[t].round)) && History(Block(s, t, s.pcs[t].round))
  {
    BlockShape(s, t, s.pcs[t].round);
    forall g | 0 <= g <= s.round ensures RoundInv(Block(s, t, s.pcs[t].round), g) {
      assert RoundInv(s, g);
      MoveRounds(s.pcs, t, Asleep(s.pcs[t].round), g);
    }
  }

  lemma DepartHistory(s: State, t: nat)
    requires Shape(s) && History(s) && t < |s.pcs| && s.pcs[t].Woken? && s.pcs[t].round < s.round
    ensures Shape(Depart(s, t)) && History(Depart(s, t))
  {
    DepartShape(s, t);
    forall g | 0 <= g <= s.round ensures RoundInv(Depart(s, t), g) {
      assert RoundInv(s, g);
      MoveRounds(s.pcs, t, Out, g);
    }
  }

  lemma WakeHistory(s: State, t: nat)
    requires Shape(s) && History(s) && t < |s.pcs| && s.pcs[t].Asleep?
    ensures Shape(Step(s, Wake(t))) && History(Step(s, Wake(t)))
  {
    WakenShape(s, Find(s.queue, t), t);
    forall g | 0 <= g <= s.round ensures RoundInv(Step(s, Wake(t)), g) {
      assert RoundInv(s, g);
      MoveRounds(s.pcs, t, Woken(s.pcs[t].round), g);
    }
  }

  lemma StepHistory(s: State, e: Event)
    requires Kept(s) && History(s) && Enabled(s, e)
    ensures Shape(Step(s, e)) && History(Step(s, e))
  {
    match e
    case Arrive(t, pick) =>
      PlusExact(s.inside, |s.pcs|);
      if AddWrap(s.inside, 1) == s.threshold {
        CompleteHistory(s);
        SignalHistory(Complete(s), pick);
      } else {
        EnterHistory(s, t);
      }
    case Resume(t, pick) =>
      if Word(s.pcs[t].round) == s.generation {
        BlockHistory(s, t);
      } else {
        DepartHistory(s, t);
        SignalHistory(Depart(s, t), pick);
      }
    case Wake(t) => WakeHistory(s, t);
  }

  lemma PlusExact(a: i32, n: nat)
    requires 0 <= a <= n < 0x7fff_ffff
    ensures AddWrap(a, 1) == a + 1 && AddWrap(AddWrap(a, 1), -1) == a
  {
  }

  lemma WordStep(round: nat, g: nat)
    ensures Word(round + 1) == (Word(round) + 1) % 0x1_0000_0000
    ensures Word(round) != Word(round + 1)
    ensures Word(g) != Word(round) ==> g != round
  {
  }

  /** Signals and blocking leave the counters alone. */
  predicate SameCounters(s: State, s': State) {
    && s'.threshold == s.threshold && |s'.pcs| == |s.pcs| && s'.inside == s.inside
    && s'.generation == s.generation && s'.round == s.round
  }

  lemma StepCounters(s: State, e: Event)
    requires Kept(s) && Enabled(s, e)
    ensures |Step(s, e).pcs| == |s.pcs| && Step(s, e).threshold == s.threshold
    ensures || SameCounters(s, Step(s, e))
            || (s.inside + 1 != s.threshold && s.inside + 1 <= 0x7fff_ffff
                && SameCounters(s.(inside := s.inside + 1), Step(s, e)))
            || (s.inside + 1 == s.threshold
                && SameCounters(s.(inside := 0, round := s.round + 1, generation := Word(s.round + 1)), Step(s, e)))
  {
    PlusExact(s.inside, |s.pcs|);
    WordStep(s.round, s.round);
  }

  lemma StepInv(s: State, e: Event)
    requires Inv(s) && Enabled(s, e)
    ensures Inv(Step(s, e))
  {
    StepHistory(s, e);
    StepCounters(s, e);
    assert RoundInv(Step(s, e), Step(s, e).round);
    EmptyHistory(Step(s, e));
  }

  lemma EmptyHistory(s: State)
    requires Shape(s) && RoundInv(s, s.round)
    ensures s.inside == Count(s.pcs, RoundIs(s.round)) <= |s.pcs|
  {
  }

  // ---- runs ----

  ghost predicate Continues(s0: State, s: State) {
    Inv(s) && s.threshold == s0.threshold && |s.pcs| == |s0.pcs|
  }

  lemma RunInv(s: State, es: seq<Event>)
    requires Inv(s) && AllEnabled(Step, s, es)
    ensures Continues(s, Final(Step, s, es))
  {
    var inv := (x: State) => Continues(s, x);
    forall x: State, e: Event | inv(x) && Enabled(x, e) ensures inv(Step(x, e)) {
      StepInv(x, e);
      StepCounters(x, e);
    }
    RunKeeps(Step, inv, s, es);
  }

  ghost predicate Reachable(s: State) {
    EndsRun(Init, Step, s)
  }

  lemma ReachableInv(s: State)
    requires Reachable(s)
    ensures Inv(s)
  {
    forall s0: State | Init(s0) ensures Inv(s0) { InitInv(s0); }
    forall x: State, e: Event | Inv(x) && Enabled(x, e) ensures Inv(Step(x, e)) { StepInv(x, e); }
    EndKeeps(Init, Step, Inv, s);
  }

  /** Nobody leaves round g before exactly threshold threads have entered it, and each completed
      round has exactly one serial thread. */
  lemma Rounds(s: State, g: nat)
    requires Reachable(s) && g < |s.entered|
    ensures |s.serial| == |s.left| == |s.entered| == s.round + 1
    ensures s.left[g] + s.serial[g] > 0 ==> s.entered[g] == s.threshold
    ensures s.serial[g] == if g < s.round then 1 else 0
    ensures s.left[g] + s.serial[g] + Count(s.pcs, RoundIs(g)) == s.entered[g]
    ensures s.threshold >= 1 ==> s.entered[g] <= s.threshold
    ensures s.threshold < 1 ==> s.left[g] + s.serial[g] == 0
  {
    ReachableInv(s);
    assert RoundInv(s, g);
  }

  /** A step by which a thread leaves round g happens after the round is complete. */
  lemma LeavesAfterCompletion(s: State, t: nat, pick: nat)
    requires Reachable(s) && Enabled(s, Resume(t, pick))
    ensures Shape(s) && |Step(s, Resume(t, pick)).pcs| == |s.pcs|
    ensures Step(s, Resume(t, pick)).pcs[t] == Out ==>
              s.pcs[t].round < s.round && s.entered[s.pcs[t].round] == s.threshold
  {
    ReachableInv(s);
    if s.pcs[t].round < s.round { assert RoundInv(s, s.pcs[t].round); }
  }

  // ---- accounting, with at most threshold participants ----

  ghost predicate Few(s: State) { |s.pcs| <= s.threshold }

  /** Every waiter belongs to the current or the previous round, and out counts the latter. */
  ghost predicate Accounted(s: State)
    requires Shape(s)
  {
    && (forall t :: 0 <= t < |s.pcs| && Waiting(s.pcs[t]) ==> s.round <= s.pcs[t].round + 1)
    && s.out == if s.round == 0 then 0 else Count(s.pcs, RoundIs(s.round - 1))
  }

  lemma SignalAccounted(s: State, pick: nat)
    requires Shape(s) && Accounted(s) && (s.queue != [] ==> pick < |s.queue|)
    ensures Shape(Signal(s, pick)) && Accounted(Signal(s, pick))
  {
    if s.queue != [] {
      var u := s.queue[pick];
      WakenShape(s, pick, u);
      if s.round > 0 { MoveRounds(s.pcs, u, Woken(s.pcs[u].round), s.round - 1); }
    }
  }

  /** When the last one arrives, everybody else is waiting in the same round. */
  lemma AllInRound(s: State, t: nat)
    requires Inv(s) && Few(s) && t < |s.pcs| && s.pcs[t] == Out && s.inside + 1 == s.threshold
    ensures forall u :: 0 <= u < |s.pcs| && u != t ==> RoundIs(s.round)(s.pcs[u])
    ensures forall u :: 0 <= u < |s.pcs| && Waiting(s.pcs[u]) ==> s.pcs[u].round == s.round
    ensures s.inside == Count(s.pcs, RoundIs(s.round))
  {
    assert RoundInv(s, s.round);
    CountAllButOne(s.pcs, t, RoundIs(s.round));
    forall u | 0 <= u < |s.pcs| && Waiting(s.pcs[u]) ensures s.pcs[u].round == s.round {
      assert RoundIs(s.round)(s.pcs[u]);
    }
  }

  lemma NobodyBefore(s: State, t: nat)
    requires Inv(s) && Few(s) && Accounted(s) && t < |s.pcs| && s.pcs[t] == Out && s.inside + 1 == s.threshold
    ensures s.out == 0
  {
    AllInRound(s, t);
    if s.round > 0 { CountZero(s.pcs, RoundIs(s.round - 1)); }
  }

  lemma CompleteAccounted(s: State, n: nat)
    requires Shape(s) && 0 <= s.inside <= n < 0x7fff_ffff && s.inside == Count(s.pcs, RoundIs(s.round))
    requires forall u :: 0 <= u < |s.pcs| && Waiting(s.pcs[u]) ==> s.pcs[u].round == s.round
    ensures Shape(Complete(s)) && Accounted(Complete(s))
  {
    CompleteShape(s);
    PlusExact(s.inside, n);
    assert Complete(s).round - 1 == s.round && Complete(s).out == s.inside;
  }

  lemma BlockAccounted(s: State, t: nat, round: nat)
    requires Shape(s) && Accounted(s) && t < |s.pcs| && !s.pcs[t].Asleep? && round <= s.round <= round + 1
    requires s.round == round + 1 ==> s.pcs[t] == Woken(round)
    requires s.round == round ==> s.pcs[t] == Out || s.pcs[t] == Woken(round)
    ensures Shape(Block(s, t, round)) && Accounted(Block(s, t, round))
  {
    BlockShape(s, t, round);
    if s.round > 0 { MoveRounds(s.pcs, t, Asleep(round), s.round - 1); }
  }

  lemma DepartAccounted(s: State, t: nat)
    requires Shape(s) && Accounted(s) && t < |s.pcs| && s.pcs[t].Woken? && s.pcs[t].round < s.round
    ensures s.out >= 1
    ensures Shape(Depart(s, t)) && Accounted(Depart(s, t)) && Depart(s, t).out == s.out - 1
  {
    DepartShape(s, t);
    MoveRounds(s.pcs, t, Out, s.round - 1);
    CountPositive(s.pcs, t, RoundIs(s.round - 1));
  }

  lemma ArriveAccounted(s: State, t: nat, pick: nat)
    requires Inv(s) && Few(s) && Accounted(s) && Enabled(s, Arrive(t, pick))
    ensures Shape(Step(s, Arrive(t, pick))) && Accounted(Step(s, Arrive(t, pick)))
  {
    PlusExact(s.inside, |s.pcs|);
    if s.inside + 1 == s.threshold {
      AllInRound(s, t);
      CompleteAccounted(s, |s.pcs|);
      SignalAccounted(Complete(s), pick);
    } else {
      EnterAccounted(s, t);
    }
  }

  lemma EnterAccounted(s: State, t: nat)
    requires Shape(s) && Accounted(s) && t < |s.pcs| && s.pcs[t] == Out
    ensures Shape(Block(Enter(s), t, s.round))
    ensures Accounted(Block(Enter(s), t, s.round))
  {
    var s1 := Enter(s);
    assert Shape(s1) && Accounted(s1);
    BlockAccounted(s1, t, s.round);
  }

  lemma ResumeAccounted(s: State, t: nat, pick: nat)
    requires Inv(s) && Accounted(s) && Enabled(s, Resume(t, pick))
    ensures Shape(Step(s, Resume(t, pick))) && Accounted(Step(s, Resume(t, pick)))
  {
    SameOrPrevious(s, t);
    if s.pcs[t].round == s.round {
      BlockAccounted(s, t, s.round);
    } else {
      DepartAccounted(s, t);
      SignalAccounted(Depart(s, t), pick);
    }
  }

  lemma WakeAccounted(s: State, t: nat)
    requires Shape(s) && Accounted(s) && Enabled(s, Wake(t))
    ensures Shape(Step(s, Wake(t))) && Accounted(Step(s, Wake(t)))
  {
    assert Step(s, Wake(t)) == Signal(s, Find(s.queue, t));
    SignalAccounted(s, Find(s.queue, t));
  }

  lemma StepAccounted(s: State, e: Event)
    requires Inv(s) && Few(s) && Accounted(s) && Enabled(s, e)
    ensures Shape(Step(s, e)) && Accounted(Step(s, e))
  {
    match e
    case Arrive(t, pick) => ArriveAccounted(s, t, pick);
    case Resume(t, pick) => ResumeAccounted(s, t, pick);
    case Wake(t) => WakeAccounted(s, t);
  }

  /** Comparing the 32-bit words tells the current round from the previous one. */
  lemma SameOrPrevious(s: State, t: nat)
    requires Inv(s) && Accounted(s) && t < |s.pcs| && Waiting(s.pcs[t])
    ensures Word(s.pcs[t].round) == s.generation <==> s.pcs[t].round == s.round
    ensures s.pcs[t].round == s.round || s.pcs[t].round + 1 == s.round
  {
    WordStep(s.pcs[t].round, s.round);
  }

  lemma RunAccounted(s: State, es: seq<Event>)
    requires Inv(s) && Few(s) && Accounted(s) && AllEnabled(Step, s, es)
    ensures Inv(Final(Step, s, es)) && Few(Final(Step, s, es)) && Accounted(Final(Step, s, es))
  {
    var inv := (x: State) => Inv(x) && Few(x) && Accounted(x);
    forall x: State, e: Event | inv(x) && Enabled(x, e) ensures inv(Step(x, e)) {
      StepAccounted(x, e);
      StepInv(x, e);
      StepCounters(x, e);
    }
    RunKeeps(Step, inv, s, es);
  }

  /** in counts the waiters of the current round, out those of the previous one, and there are no
      others. */
  lemma Accounting(s: State)
    requires Reachable(s) && Few(s)
    ensures Shape(s) && Accounted(s) && s.inside == Count(s.pcs, RoundIs(s.round))
  {
    var s0: State, es: seq<Event> :| Init(s0) && AllEnabled(Step, s0, es) && Final(Step, s0, es) == s;
    InitInv(s0);
    RunInv(s0, es);
    RunAccounted(s0, es);
    assert RoundInv(s, s.round);
  }

  /** Line 115 never overwrites a count of threads still on their way out. */
  lemma OutIsFree(s: State, t: nat, pick: nat)
    requires Reachable(s) && Few(s) && Enabled(s, Arrive(t, pick)) && s.inside + 1 == s.threshold
    ensures s.out == 0
  {
    ReachableInv(s);
    Accounting(s);
    NobodyBefore(s, t);
  }

  /** The test of line 83: EBUSY exactly while somebody is inside. */
  lemma DestroyTestExact(s: State)
    requires Reachable(s) && Few(s)
    ensures (s.out > 0 || s.inside > 0) <==> exists t :: 0 <= t < |s.pcs| && Waiting(s.pcs[t])
  {
    ReachableInv(s);
    Accounting(s);
    BusyExactly(s);
  }

  lemma BusyExactly(s: State)
    requires Inv(s) && Accounted(s)
    ensures (s.out > 0 || s.inside > 0) <==> exists t :: 0 <= t < |s.pcs| && Waiting(s.pcs[t])
  {
    assert RoundInv(s, s.round);
    CountZero(s.pcs, RoundIs(s.round));
    if s.round > 0 { CountZero(s.pcs, RoundIs(s.round - 1)); }
    if t :| 0 <= t < |s.pcs| && Waiting(s.pcs[t]) {
      SameOrPrevious(s, t);
    }
  }

  /** For any number of participants, destroy never succeeds under a waiter of the current round. */
  lemma NotBusyNoneNow(s: State)
    requires Inv(s)
    ensures s.inside == 0 ==> forall t :: 0 <= t < |s.pcs| && Waiting(s.pcs[t]) ==> s.pcs[t].round < s.round
  {
    assert RoundInv(s, s.round);
    CountZero(s.pcs, RoundIs(s.round));
    forall t | s.inside == 0 && 0 <= t < |s.pcs| && Waiting(s.pcs[t]) ensures s.pcs[t].round < s.round {
      assert !RoundIs(s.round)(s.pcs[t]);
    }
  }

  /** The invariant of every run, with the accounting where it holds. */
  ghost predicate Consistent(s: State) {
    Inv(s) && (Few(s) ==> Accounted(s))
  }

  lemma InitConsistent(s: State)
    requires Init(s)
    ensures Consistent(s)
  {
    InitInv(s);
  }

  lemma StepConsistent(s: State, e: Event)
    requires Consistent(s) && Enabled(s, e)
    ensures Consistent(Step(s, e))
  {
    StepInv(s, e);
    StepCounters(s, e);
    if Few(s) { StepAccounted(s, e); }
  }

  // ---- the signal chain, waiters woken in the order in which they blocked ----

  predicate Fifo(e: Event) { !e.Wake? ==> e.pick == 0 }

  /** Earlier rounds come first in the queue. */
  ghost predicate Sorted(s: State)
    requires Shape(s)
  {
    forall i, j :: 0 <= i < j < |s.queue| ==> s.pcs[s.queue[i]].round <= s.pcs[s.queue[j]].round
  }

  predicate StillAsleep(s: State, t: nat)
    requires t < |s.pcs|
  {
    s.pcs[t].Asleep? && s.pcs[t].round < s.round
  }

  predicate OnItsWay(s: State, t: nat)
    requires t < |s.pcs|
  {
    s.pcs[t].Woken? && s.pcs[t].round < s.round
  }

  /** While a waiter of a completed round is asleep, another one is awake. */
  ghost predicate Chained(s: State) {
    (exists t :: 0 <= t < |s.pcs| && StillAsleep(s, t)) ==> exists t :: 0 <= t < |s.pcs| && OnItsWay(s, t)
  }

  lemma RemoveSorted(s: State, i: nat, u: nat)
    requires Shape(s) && Sorted(s) && i < |s.queue| && u == s.queue[i]
    ensures Shape(s.(pcs := s.pcs[u := Woken(s.pcs[u].round)], queue := Remove(s.queue, i)))
    ensures Sorted(s.(pcs := s.pcs[u := Woken(s.pcs[u].round)], queue := Remove(s.queue, i)))
  {
    WakenShape(s, i, u);
    var q := Remove(s.queue, i);
    forall a, b | 0 <= a < b < |q|
      ensures q[a] < |s.pcs| && q[b] < |s.pcs| && q[a] != u && q[b] != u && s.pcs[q[a]].round <= s.pcs[q[b]].round
    {
      RemainsSorted(s, i, a, b);
    }
  }

  lemma RemainsSorted(s: State, i: nat, a: nat, b: nat)
    requires Shape(s) && Sorted(s) && i < |s.queue| && a < b < |s.queue| - 1
    ensures var q := Remove(s.queue, i);
      q[a] < |s.pcs| && q[b] < |s.pcs| && q[a] != s.queue[i] && q[b] != s.queue[i]
      && s.pcs[q[a]].round <= s.pcs[q[b]].round
  {
    var q := Remove(s.queue, i);
    assert q[a] == s.queue[if a < i then a else a + 1] && q[b] == s.queue[if b < i then b else b + 1];
  }

  lemma SignalChains(s: State)
    requires Shape(s) && Sorted(s)
    ensures Shape(Signal(s, 0)) && Sorted(Signal(s, 0)) && Chained(Signal(s, 0))
  {
    if s.queue != [] {
      RemoveSorted(s, 0, s.queue[0]);
      FirstIsOldest(s);
    } else {
      assert forall t :: 0 <= t < |s.pcs| ==> !StillAsleep(s, t);
    }
  }

  lemma FirstIsOldest(s: State)
    requires Shape(s) && Sorted(s) && s.queue != []
    ensures Chained(Signal(s, 0))
  {
    var s', u := Signal(s, 0), s.queue[0];
    forall t | 0 <= t < |s.pcs| && StillAsleep(s', t) ensures OnItsWay(s', u) {
      assert t in s.queue;
      var i :| 0 <= i < |s.queue| && s.queue[i] == t;
      assert s.pcs[s.queue[0]].round <= s.pcs[s.queue[i]].round;
    }
    if t :| 0 <= t < |s.pcs| && StillAsleep(s', t) { assert OnItsWay(s', u); }
  }

  /** Threads that were on their way still are, and nobody new has fallen behind. */
  lemma KeepsChain(s: State, s': State)
    requires Chained(s) && |s'.pcs| == |s.pcs|
    requires forall t :: 0 <= t < |s.pcs| && StillAsleep(s', t) ==> StillAsleep(s, t)
    requires forall t :: 0 <= t < |s.pcs| && OnItsWay(s, t) ==> OnItsWay(s', t)
    ensures Chained(s')
  {
    if t :| 0 <= t < |s.pcs| && StillAsleep(s', t) {
      assert StillAsleep(s, t);
      var u :| 0 <= u < |s.pcs| && OnItsWay(s, u);
      assert OnItsWay(s', u);
    }
  }

  lemma BlockChains(s: State, t: nat)
    requires Shape(s) && Sorted(s) && Chained(s) && t < |s.pcs|
    requires s.pcs[t] == Out || s.pcs[t] == Woken(s.round)
    ensures Shape(Block(s, t, s.round)) && Sorted(Block(s, t, s.round)) && Chained(Block(s, t, s.round))
  {
    BlockShape(s, t, s.round);
    KeepsChain(s, Block(s, t, s.round));
  }

  lemma WakeChains(s: State, t: nat)
    requires Shape(s) && Sorted(s) && Chained(s) && t < |s.pcs| && s.pcs[t].Asleep?
    ensures Shape(Step(s, Wake(t))) && Sorted(Step(s, Wake(t))) && Chained(Step(s, Wake(t)))
  {
    RemoveSorted(s, Find(s.queue, t), t);
    WakeKeepsChain(s, t);
  }

  lemma WakeKeepsChain(s: State, t: nat)
    requires Shape(s) && Chained(s) && t < |s.pcs| && s.pcs[t].Asleep?
    ensures Chained(Step(s, Wake(t)))
  {
    var s' := Step(s, Wake(t));
    assert s'.pcs == s.pcs[t := Woken(s.pcs[t].round)] && s'.round == s.round;
    KeepsChain(s, s');
  }

  lemma ArriveChains(s: State, t: nat)
    requires Kept(s) && Sorted(s) && Chained(s) && Enabled(s, Arrive(t, 0))
    ensures var s' := Step(s, Arrive(t, 0)); Shape(s') && Sorted(s') && Chained(s')
  {
    PlusExact(s.inside, |s.pcs|);
    if s.inside + 1 == s.threshold {
      CompleteShape(s);
      SignalChains(Complete(s));
    } else {
      var s1 := Enter(s);
      KeepsChain(s, s1);
      BlockChains(s1, t);
    }
  }

  lemma StepChains(s: State, e: Event)
    requires Inv(s) && Few(s) && Accounted(s) && Sorted(s) && Chained(s) && Enabled(s, e) && Fifo(e)
    ensures Shape(Step(s, e)) && Sorted(Step(s, e)) && Chained(Step(s, e))
  {
    match e
    case Arrive(t, pick) => ArriveChains(s, t);
    case Resume(t, pick) => ResumeChains(s, t);
    case Wake(t) => WakeChains(s, t);
  }

  lemma ResumeChains(s: State, t: nat)
    requires Inv(s) && Accounted(s) && Sorted(s) && Chained(s) && Enabled(s, Resume(t, 0))
    ensures var s' := Step(s, Resume(t, 0)); Shape(s') && Sorted(s') && Chained(s')
  {
    SameOrPrevious(s, t);
    if Word(s.pcs[t].round) == s.generation {
      BlockChains(s, t);
    } else {
      DepartShape(s, t);
      SignalChains(Depart(s, t));
    }
  }

  // ---- the chain over whole runs ----

  ghost predicate AllFifo(es: seq<Event>) { forall e :: e in es ==> Fifo(e) }

  /** What the chain needs of a state. */
  ghost predicate Healthy(s: State) {
    Inv(s) && Few(s) && Accounted(s) && Sorted(s) && Chained(s)
  }

  lemma StepHealthy(s: State, e: Event)
    requires Healthy(s) && Enabled(s, e) && Fifo(e)
    ensures Healthy(Step(s, e))
  {
    StepInv(s, e);
    StepCounters(s, e);
    StepAccounted(s, e);
    StepChains(s, e);
  }

  lemma RunHealthy(s: State, es: seq<Event>)
    requires Healthy(s) && AllEnabled(Step, s, es) && AllFifo(es)
    ensures Healthy(Final(Step, s, es))
  {
    forall x: State, e: Event | Healthy(x) && Fifo(e) && Enabled(x, e) ensures Healthy(Step(x, e)) {
      StepHealthy(x, e);
    }
    RunKeepsUnder(Step, Healthy, Fifo, s, es);
  }

  lemma InitHealthy(s: State)
    requires Init(s) && Few(s)
    ensures Healthy(s)
  {
    InitInv(s);
  }

  /** The signal chain holds in every state of a first-in first-out run. */
  lemma SignalChain(s0: State, es: seq<Event>)
    requires Init(s0) && Few(s0) && AllEnabled(Step, s0, es) && AllFifo(es)
    ensures Chained(Final(Step, s0, es))
  {
    InitHealthy(s0);
    RunHealthy(s0, es);
  }

  /** So the waiters of a completed round can all leave with no new arrival and no spurious wake:
      running those that are awake is enough. */
  lemma {:induction false} Drains(s: State) returns (es: seq<Event>, s': State)
    requires Healthy(s)
    ensures AllEnabled(Step, s, es) && Final(Step, s, es) == s' && |es| == s.out
    ensures forall e :: e in es ==> e.Resume?
    ensures Healthy(s') && s'.out == 0 && s'.round == s.round
    ensures forall t :: 0 <= t < |s'.pcs| && Waiting(s'.pcs[t]) ==> s'.pcs[t].round == s'.round
    decreases s.out
  {
    if s.out == 0 {
      es, s' := [], s;
      NobodyPrevious(s);
    } else {
      var t := SomebodyAwake(s);
      SameOrPrevious(s, t);
      DepartAccounted(s, t);
      StepHealthy(s, Resume(t, 0));
      es, s' := Drains(Step(s, Resume(t, 0)));
      RunCons(Step, s, Resume(t, 0), es);
      es := [Resume(t, 0)] + es;
    }
  }

  lemma NobodyPrevious(s: State)
    requires Inv(s) && Accounted(s) && s.out == 0
    ensures forall t :: 0 <= t < |s.pcs| && Waiting(s.pcs[t]) ==> s.pcs[t].round == s.round
  {
    if s.round > 0 { CountZero(s.pcs, RoundIs(s.round - 1)); }
    forall t | 0 <= t < |s.pcs| && Waiting(s.pcs[t]) ensures s.pcs[t].round == s.round {
      SameOrPrevious(s, t);
      if s.round > 0 { assert !RoundIs(s.round - 1)(s.pcs[t]); }
    }
  }

  lemma SomebodyAwake(s: State) returns (t: nat)
    requires Shape(s) && Accounted(s) && Chained(s) && s.out > 0
    ensures t < |s.pcs| && OnItsWay(s, t)
  {
    t := CountWitness(s.pcs, RoundIs(s.round - 1));
    if s.pcs[t].Asleep? {
      assert StillAsleep(s, t);
      var u :| 0 <= u < |s.pcs| && OnItsWay(s, u);
      t := u;
    }
  }

  // ---- building runs ----

  ghost predicate Goes(s: State, e: Event, s': State) {
    Inv(s) && Inv(s') && Enabled(s, e) && Step(s, e) == s'
  }

  lemma GoesOn(s: State, e: Event, s': State)
    requires Inv(s) && Enabled(s, e) && Step(s, e) == s'
    ensures Goes(s, e, s')
  {
    StepInv(s, e);
  }

  /** A thread arrives and blocks. */
  lemma ArriveBlocks(s: State, t: nat, s': State)
    requires Inv(s) && t < |s.pcs| && s.pcs[t] == Out && s.inside + 1 != s.threshold
    requires s' == s.(inside := s.inside + 1, entered := Bump(s.entered, s.round),
                      pcs := s.pcs[t := Asleep(s.round)], queue := s.queue + [t])
    ensures Goes(s, Arrive(t, 0), s')
  {
    PlusExact(s.inside, |s.pcs|);
    GoesOn(s, Arrive(t, 0), s');
  }

  lemma ArriveCompletes(s: State, t: nat, u: nat, s': State)
    requires Inv(s) && t < |s.pcs| && s.pcs[t] == Out && s.inside + 1 == s.threshold
    requires s.queue != [] && u == s.queue[0]
    requires s' == s.(inside := 0, out := s.inside, generation := Word(s.round + 1), round := s.round + 1,
                      entered := Bump(s.entered, s.round) + [0], serial := Bump(s.serial, s.round) + [0],
                      left := s.left + [0], pcs := s.pcs[u := Woken(s.pcs[u].round)], queue := s.queue[1..])
    ensures Goes(s, Arrive(t, 0), s')
  {
    PlusExact(s.inside, |s.pcs|);
    WordStep(s.round, s.round);
    assert Remove(s.queue, 0) == s.queue[1..];
    GoesOn(s, Arrive(t, 0), s');
  }

  lemma ResumeDeparts(s: State, t: nat, pick: nat, u: nat, s': State)
    requires Inv(s) && t < |s.pcs| && s.pcs[t].Woken? && Word(s.pcs[t].round) != s.generation
    requires s.out >= 1 && pick < |s.queue| && u == s.queue[pick]
    requires s' == s.(out := s.out - 1, left := Bump(s.left, s.pcs[t].round),
                      pcs := s.pcs[t := Out][u := Woken(s.pcs[u].round)], queue := Remove(s.queue, pick))
    ensures Goes(s, Resume(t, pick), s')
  {
    assert s.pcs[u].Asleep? && u != t;
    GoesOn(s, Resume(t, pick), s');
  }

  lemma ResumeBlocks(s: State, t: nat, s': State)
    requires Inv(s) && t < |s.pcs| && s.pcs[t] == Woken(s.round)
    requires s' == s.(pcs := s.pcs[t := Asleep(s.round)], queue := s.queue + [t])
    ensures Goes(s, Resume(t, 0), s')
  {
    GoesOn(s, Resume(t, 0), s');
  }

  lemma Prepend(s: State, e: Event, s': State, es: seq<Event>)
    requires Goes(s, e, s') && AllEnabled(Step, s', es)
    ensures AllEnabled(Step, s, [e] + es) && Final(Step, s, [e] + es) == Final(Step, s', es)
  {
    RunCons(Step, s, e, es);
  }

  // ---- more participants than the threshold ----

  predicate IsOut(pc: Pc) { pc == Out }

  ghost predicate NoWake(es: seq<Event>) { forall e :: e in es ==> !e.Wake? }

  predicate NoneWoken(s: State) { forall t :: 0 <= t < |s.pcs| ==> !s.pcs[t].Woken? }

  /** Threads arrive until one is missing; there have to be enough that are not inside. */
  lemma {:induction false} Fill(s: State) returns (es: seq<Event>, s': State)
    requires Inv(s) && Count(s.pcs, IsOut) > s.threshold - 1 - s.inside >= 0
    ensures AllEnabled(Step, s, es) && Final(Step, s, es) == s' && Inv(s')
    ensures s'.inside == s'.threshold - 1 && s'.threshold == s.threshold && |s'.pcs| == |s.pcs|
    ensures s'.out == s.out && s'.round == s.round && Count(s'.pcs, IsOut) >= 1
    ensures NoWake(es) && (NoneWoken(s) ==> NoneWoken(s'))
    decreases s.threshold - s.inside
  {
    if s.inside == s.threshold - 1 {
      es, s' := [], s;
    } else {
      var t := CountWitness(s.pcs, IsOut);
      var s1 := s.(inside := s.inside + 1, entered := Bump(s.entered, s.round),
                   pcs := s.pcs[t := Asleep(s.round)], queue := s.queue + [t]);
      ArriveBlocks(s, t, s1);
      CountUpdate(s.pcs, t, Asleep(s.round), IsOut);
      es, s' := Fill(s1);
      Prepend(s, Arrive(t, 0), s1, es);
      es := [Arrive(t, 0)] + es;
    }
  }

  /** The last one arrives: all waiters of the round are still inside. */
  lemma LastArrives(s: State) returns (e: Event, s': State)
    requires Inv(s) && s.round == 0 && s.inside == s.threshold - 1 >= 1 && Count(s.pcs, IsOut) >= 1
    ensures Goes(s, e, s') && Accounted(s') && s'.round == 1 && s'.inside == 0
    ensures s'.threshold == s.threshold && |s'.pcs| == |s.pcs| && s'.out == s.threshold - 1
    ensures !e.Wake? && Sorted(s') && Chained(s')
  {
    var t := CountWitness(s.pcs, IsOut);
    e := Arrive(t, 0);
    assert RoundInv(s, 0);
    PlusExact(s.inside, |s.pcs|);
    GoesOn(s, e, Step(s, e));
    s' := Step(s, e);
    CompleteAccounted(s, |s.pcs|);
    SignalAccounted(Complete(s), 0);
    StepCounters(s, e);
    assert s'.out == Complete(s).out;
    SignalChains(Complete(s));
  }

  /** Waiters of the completed round leave until one is left, each woken by the one before. */
  lemma {:induction false} Release(s: State) returns (es: seq<Event>, s': State)
    requires Inv(s) && Accounted(s) && Sorted(s) && Chained(s) && s.round >= 1 && s.inside == 0 && s.out >= 1
    ensures AllEnabled(Step, s, es) && Final(Step, s, es) == s' && Inv(s') && NoWake(es)
    ensures Accounted(s') && s'.round == s.round && s'.inside == 0 && s'.out == 1
    ensures s'.threshold == s.threshold && |s'.pcs| == |s.pcs|
    decreases s.out
  {
    if s.out == 1 {
      es, s' := [], s;
    } else {
      var t := SomebodyAwake(s);
      SameOrPrevious(s, t);
      var s1 := Goodbye(s, t);
      ResumeChains(s, t);
      es, s' := Release(s1);
      Prepend(s, Resume(t, 0), s1, es);
      es := [Resume(t, 0)] + es;
    }
  }

  lemma Goodbye(s: State, t: nat) returns (s': State)
    requires Inv(s) && Accounted(s) && t < |s.pcs| && s.pcs[t].Woken? && s.pcs[t].round + 1 == s.round
    ensures Goes(s, Resume(t, 0), s') && Accounted(s') && SameCounters(s, s') && s'.out == s.out - 1
  {
    SameOrPrevious(s, t);
    DepartAccounted(s, t);
    SignalAccounted(Depart(s, t), 0);
    s' := Step(s, Resume(t, 0));
    GoesOn(s, Resume(t, 0), s');
  }

  /** With one thread still on its way out, everybody else is outside. */
  lemma OthersAreOut(s: State)
    requires Inv(s) && Accounted(s) && s.round >= 1 && s.inside == 0 && s.out == 1
    ensures Count(s.pcs, IsOut) >= |s.pcs| - 1
  {
    assert RoundInv(s, s.round);
    CountZero(s.pcs, RoundIs(s.round));
    forall t | 0 <= t < |s.pcs| && !IsOut(s.pcs[t]) ensures RoundIs(s.round - 1)(s.pcs[t]) {
      SameOrPrevious(s, t);
      assert !RoundIs(s.round)(s.pcs[t]);
    }
    CountCovers(s.pcs, IsOut, RoundIs(s.round - 1));
  }

  /** One thread too many: the store of line 115 can overwrite the count of a thread that is still
      on its way out. */
  lemma OutIsOverwritten(threshold: i32, threads: nat) returns (s0: State, es: seq<Event>, s: State, t: nat)
    requires 2 <= threshold < threads < 0x7fff_ffff
    ensures Init(s0) && s0.threshold == threshold && |s0.pcs| == threads
    ensures AllEnabled(Step, s0, es) && Final(Step, s0, es) == s && NoWake(es)
    ensures Enabled(s, Arrive(t, 0)) && s.inside + 1 == s.threshold && s.out > 0
  {
    s0 := State(threshold, 0, 0, 0, [], seq(threads, i => Out), 0, [0], [0], [0]);
    InitInv(s0);
    AllOut(s0.pcs);
    var first, s1 := Fill(s0);
    var second, s2 := AllButOneLeave(s1);
    var third, s3 := Fill(s2);
    s := s3;
    t := CountWitness(s.pcs, IsOut);
    RunAppend(Step, s1, second, third);
    RunAppend(Step, s0, first, second + third);
    es := first + (second + third);
  }

  lemma AllButOneLeave(s: State) returns (es: seq<Event>, s': State)
    requires Inv(s) && s.round == 0 && s.inside == s.threshold - 1 >= 1 && Count(s.pcs, IsOut) >= 1
    ensures AllEnabled(Step, s, es) && Final(Step, s, es) == s' && NoWake(es) && Inv(s')
    ensures s'.threshold == s.threshold && |s'.pcs| == |s.pcs| && s'.inside == 0 && s'.out == 1
    ensures Count(s'.pcs, IsOut) >= |s'.pcs| - 1
  {
    var e, s1 := LastArrives(s);
    es, s' := Release(s1);
    OthersAreOut(s');
    Prepend(s, e, s1, es);
    es := [e] + es;
  }

  lemma {:induction false} AllOut(pcs: seq<Pc>)
    requires forall t :: 0 <= t < |pcs| ==> pcs[t] == Out
    ensures Count(pcs, IsOut) == |pcs|
  {
    if pcs != [] { AllOut(pcs[1..]); }
  }

  /** For a threshold of at most one nobody ever waits to leave. */
  lemma NobodyBehind(s: State, t: nat)
    requires Inv(s) && s.threshold <= 1 && t < |s.pcs| && Waiting(s.pcs[t])
    ensures s.pcs[t].round == s.round
  {
    assert RoundInv(s, s.pcs[t].round);
    CountPositive(s.pcs, t, RoundIs(s.pcs[t].round));
  }

  lemma ArriveKeepsOutZero(s: State, t: nat, pick: nat)
    requires Shape(s) && 0 <= s.inside < 0x7fff_ffff && (s.threshold >= 1 ==> s.inside < s.threshold)
    requires s.threshold <= 1 && s.out == 0 && Enabled(s, Arrive(t, pick))
    ensures Step(s, Arrive(t, pick)).out == 0
  {
    PlusExact(s.inside, s.inside);
  }

  lemma StepKeepsOutZero(s: State, e: Event)
    requires Kept(s) && s.threshold <= 1 && s.out == 0 && Enabled(s, e)
    requires e.Resume? ==> s.pcs[e.t].round == s.round
    ensures Step(s, e).out == 0
  {
    if e.Arrive? { ArriveKeepsOutZero(s, e.t, e.pick); }
  }

  lemma RunKeepsOutZero(s: State, es: seq<Event>)
    requires Inv(s) && s.threshold <= 1 && s.out == 0 && AllEnabled(Step, s, es)
    ensures Final(Step, s, es).out == 0
  {
    var inv := (x: State) => Inv(x) && x.threshold <= 1 && x.out == 0;
    forall x: State, e: Event | inv(x) && Enabled(x, e) ensures inv(Step(x, e)) {
      if e.Resume? { NobodyBehind(x, e.t); }
      StepKeepsOutZero(x, e);
      StepInv(x, e);
      StepCounters(x, e);
    }
    RunKeeps(Step, inv, s, es);
  }

  /** A run after which the next arrival overwrites a non-zero out. */
  ghost predicate Overwrites(s0: State, es: seq<Event>, t: nat) {
    && Init(s0) && AllEnabled(Step, s0, es)
    && Enabled(Final(Step, s0, es), Arrive(t, 0))
    && Final(Step, s0, es).inside + 1 == s0.threshold && Final(Step, s0, es).out != 0
  }

  /** Exactly when out is safe: at most threshold participants, or a threshold of at most one.
      Waking up for no reason makes no difference. */
  lemma OutIsSafeExactly(threshold: i32, threads: nat)
    requires threads < 0x7fff_ffff
    ensures (exists s0: State, es: seq<Event>, t: nat ::
               s0.threshold == threshold && |s0.pcs| == threads && Overwrites(s0, es, t)) <==> 2 <= threshold < threads
    ensures (exists s0: State, es: seq<Event>, t: nat ::
               s0.threshold == threshold && |s0.pcs| == threads && Overwrites(s0, es, t) && NoWake(es))
            <==> 2 <= threshold < threads
  {
    if 2 <= threshold < threads {
      var s0, es, s, t := OutIsOverwritten(threshold, threads);
      InitInv(s0);
      RunInv(s0, es);
      assert Overwrites(s0, es, t);
    }
    forall s0: State, es: seq<Event>, t: nat | s0.threshold == threshold && |s0.pcs| == threads && Overwrites(s0, es, t)
      ensures 2 <= threshold < threads
    {
      SafeRun(s0, es, t);
    }
  }

  lemma SafeRun(s0: State, es: seq<Event>, t: nat)
    requires Overwrites(s0, es, t)
    ensures 2 <= s0.threshold < |s0.pcs|
  {
    InitInv(s0);
    RunInv(s0, es);
    if s0.threshold <= 1 {
      RunKeepsOutZero(s0, es);
    } else if Few(s0) {
      RunAccounted(s0, es);
      NobodyBefore(Final(Step, s0, es), t);
    }
  }

  // ---- the order of waking up matters ----

  /** t is the last one to arrive, w the waiter its signal wakes, v another waiter. */
  ghost predicate AboutToStrand(s: State, t: nat, w: nat, v: nat) {
    && Inv(s) && s.round == 0 && 3 <= s.threshold == |s.pcs| && s.inside == s.threshold - 1
    && t < |s.pcs| && w < |s.pcs| && v < |s.pcs| && s.pcs[t] == Out
    && |s.queue| >= 2 && w == s.queue[0] && v == s.queue[1]
    && (forall u :: 0 <= u < |s.pcs| && u != t ==> s.pcs[u] == Asleep(0))
  }

  lemma LastOfThree(s: State) returns (t: nat, w: nat, v: nat)
    requires Inv(s) && s.round == 0 && 3 <= s.threshold == |s.pcs| && s.inside == s.threshold - 1
    requires Count(s.pcs, IsOut) >= 1 && NoneWoken(s)
    ensures AboutToStrand(s, t, w, v)
  {
    t := CountWitness(s.pcs, IsOut);
    AllInRound(s, t);
    forall u | 0 <= u < |s.pcs| && u != t ensures s.pcs[u] == Asleep(0) && u in s.queue {
      assert RoundIs(0)(s.pcs[u]);
    }
    TwoInQueue(s, if t == 0 then 1 else 0, if t == 2 then 1 else 2);
    w, v := s.queue[0], s.queue[1];
  }

  lemma TwoInQueue(s: State, a: nat, b: nat)
    requires a in s.queue && b in s.queue && a != b
    ensures |s.queue| >= 2
  {
    var i :| 0 <= i < |s.queue| && s.queue[i] == a;
    var j :| 0 <= j < |s.queue| && s.queue[j] == b;
  }

  /** t completes round 0 and arrives again, for round 1. */
  lemma CompleteAndReturn(s: State, t: nat, w: nat, v: nat) returns (es: seq<Event>, s2: State)
    requires AboutToStrand(s, t, w, v)
    ensures AllEnabled(Step, s, es) && Final(Step, s, es) == s2 && NoWake(es) && Inv(s2)
    ensures s2.pcs == s.pcs[w := Woken(0)][t := Asleep(1)] && s2.queue == s.queue[1..] + [t]
    ensures s2.round == 1 && s2.inside == 1 && s2.out == s.threshold - 1 && s2.threshold == s.threshold
    ensures s2.generation == Word(1)
  {
    var s1 := FirstComplete(s, t, w);
    s2 := ComeBack(s1, t);
    es := TwoEvents(s, Arrive(t, 0), s1, Arrive(t, 0), s2);
  }

  lemma TwoEvents(s: State, e1: Event, s1: State, e2: Event, s2: State) returns (es: seq<Event>)
    requires Goes(s, e1, s1) && Goes(s1, e2, s2) && !e1.Wake? && !e2.Wake?
    ensures AllEnabled(Step, s, es) && Final(Step, s, es) == s2 && NoWake(es)
  {
    Prepend(s1, e2, s2, []);
    Prepend(s, e1, s1, [e2] + []);
    es := [e1] + ([e2] + []);
  }

  lemma ComeBack(s: State, t: nat) returns (s': State)
    requires Inv(s) && t < |s.pcs| && s.pcs[t] == Out && s.inside == 0 && s.threshold >= 3
    ensures Goes(s, Arrive(t, 0), s') && s'.inside == 1
    ensures s'.pcs == s.pcs[t := Asleep(s.round)] && s'.queue == s.queue + [t]
    ensures s'.round == s.round && s'.out == s.out && s'.threshold == s.threshold && s'.generation == s.generation
  {
    s' := s.(inside := 1, entered := Bump(s.entered, s.round),
             pcs := s.pcs[t := Asleep(s.round)], queue := s.queue + [t]);
    ArriveBlocks(s, t, s');
  }

  lemma FirstComplete(s: State, t: nat, w: nat) returns (s': State)
    requires Inv(s) && t < |s.pcs| && s.pcs[t] == Out && s.inside + 1 == s.threshold && s.round == 0
    requires s.queue != [] && w == s.queue[0] && s.pcs[w] == Asleep(0)
    ensures Goes(s, Arrive(t, 0), s') && s'.pcs == s.pcs[w := Woken(0)] && s'.queue == s.queue[1..]
    ensures s'.round == 1 && s'.inside == 0 && s'.out == s.inside
    ensures s'.threshold == s.threshold && s'.generation == Word(1)
  {
    s' := s.(inside := 0, out := s.inside, generation := Word(s.round + 1), round := s.round + 1,
             entered := Bump(s.entered, s.round) + [0], serial := Bump(s.serial, s.round) + [0],
             left := s.left + [0], pcs := s.pcs[w := Woken(0)], queue := s.queue[1..]);
    ArriveCompletes(s, t, w, s');
  }

  /** w leaves and its signal picks the late comer t, which blocks again without passing it on;
      then w arrives again. */
  lemma SignalGoesAstray(s: State, t: nat, w: nat, pick: nat) returns (es: seq<Event>, s3: State)
    requires Inv(s) && s.round == 1 && s.inside == 1 && s.out >= 1 && s.threshold >= 3 && s.generation == Word(1)
    requires t < |s.pcs| && w < |s.pcs| && t != w && s.pcs[w] == Woken(0) && s.pcs[t] == Asleep(1)
    requires pick < |s.queue| && s.queue[pick] == t
    ensures AllEnabled(Step, s, es) && Final(Step, s, es) == s3 && NoWake(es)
    ensures s3.pcs == s.pcs[w := Asleep(1)] && s3.round == 1
  {
    var s1 := s.(out := s.out - 1, left := Bump(s.left, 0),
                 pcs := s.pcs[w := Out][t := Woken(1)], queue := Remove(s.queue, pick));
    WordStep(0, 0);
    ResumeDeparts(s, w, pick, t, s1);
    var s2 := s1.(pcs := s1.pcs[t := Asleep(1)], queue := s1.queue + [t]);
    ResumeBlocks(s1, t, s2);
    s3 := s2.(inside := s2.inside + 1, entered := Bump(s2.entered, 1),
              pcs := s2.pcs[w := Asleep(1)], queue := s2.queue + [w]);
    ArriveBlocks(s2, w, s3);
    assert s3.pcs == s.pcs[w := Asleep(1)];
    var first := TwoEvents(s, Resume(w, pick), s1, Resume(t, 0), s2);
    Prepend(s2, Arrive(w, 0), s3, []);
    RunAppend(Step, s, first, [Arrive(w, 0)] + []);
    es := first + ([Arrive(w, 0)] + []);
  }

  predicate Deadlocked(s: State) { forall t :: 0 <= t < |s.pcs| ==> s.pcs[t].Asleep? }

  /** From there nothing can happen but a thread waking up for no reason. */
  lemma OnlyWakeRemains(s: State, e: Event)
    requires Deadlocked(s) && Enabled(s, e)
    ensures e.Wake?
  {
  }

  /** The threads all sleep, v in a round that is complete. */
  lemma Strand(s: State, t: nat, w: nat, v: nat) returns (es: seq<Event>, s': State)
    requires AboutToStrand(s, t, w, v)
    ensures AllEnabled(Step, s, es) && Final(Step, s, es) == s' && NoWake(es)
    ensures |s'.pcs| == |s.pcs| && Deadlocked(s') && !Chained(s')
  {
    assert v != t && w != t && v != w;
    var first, s1 := CompleteAndReturn(s, t, w, v);
    var second, s2 := SignalGoesAstray(s1, t, w, |s1.queue| - 1);
    s' := s2;
    RunAppend(Step, s, first, second);
    es := first + second;
    Stranded(s.pcs, t, w, v, s');
  }

  lemma Stranded(pcs: seq<Pc>, t: nat, w: nat, v: nat, s: State)
    requires t < |pcs| && w < |pcs| && v < |pcs| && v != t && v != w && t != w
    requires forall u :: 0 <= u < |pcs| && u != t ==> pcs[u] == Asleep(0)
    requires s.pcs == pcs[w := Woken(0)][t := Asleep(1)][w := Asleep(1)] && s.round == 1
    ensures Deadlocked(s) && !Chained(s)
  {
    assert StillAsleep(s, v);
  }

  /** With exactly threshold threads, three or more, and signals that pick any waiter: a run in
      which nobody wakes up without a signal, at whose end everybody sleeps for ever. */
  lemma WithoutFifoAWaiterIsStuck(threshold: i32, threads: nat) returns (s0: State, es: seq<Event>, s: State)
    requires 3 <= threshold == threads < 0x7fff_ffff
    ensures Init(s0) && s0.threshold == threshold && |s0.pcs| == threads
    ensures AllEnabled(Step, s0, es) && NoWake(es) && Final(Step, s0, es) == s
    ensures Deadlocked(s) && !Chained(s)
  {
    s0 := State(threshold, 0, 0, 0, [], seq(threads, i => Out), 0, [0], [0], [0]);
    InitInv(s0);
    AllOut(s0.pcs);
    var es1, s1 := Fill(s0);
    var t, w, v := LastOfThree(s1);
    var es2, s2 := Strand(s1, t, w, v);
    s := s2;
    RunAppend(Step, s0, es1, es2);
    es := es1 + es2;
  }

  /** Nobody is asleep in a completed round. */
  ghost predicate NoneStranded(s: State) {
    forall t :: 0 <= t < |s.pcs| ==> !StillAsleep(s, t)
  }

  /** A thread that is outside is not counted inside. */
  lemma RoomOutside(s: State, t: nat)
    requires Inv(s) && t < |s.pcs| && s.pcs[t] == Out
    ensures s.inside < |s.pcs|
  {
    assert RoundInv(s, s.round);
    if s.inside >= |s.pcs| { CountAll(s.pcs, RoundIs(s.round)); }
  }

  /** With fewer threads than the threshold the first round is never completed. */
  lemma FirstRoundStays(s: State, e: Event)
    requires Inv(s) && |s.pcs| < s.threshold && s.round == 0 && Enabled(s, e)
    ensures Step(s, e).round == 0
  {
    PlusExact(s.inside, |s.pcs|);
    if e.Arrive? { RoomOutside(s, e.t); }
  }

  lemma SignalStrandsNobody(s: State, pick: nat)
    requires Shape(s) && NoneStranded(s) && (s.queue != [] ==> pick < |s.queue|)
    ensures NoneStranded(Signal(s, pick))
  {
    forall t | 0 <= t < |s.pcs| ensures !StillAsleep(Signal(s, pick), t) { assert !StillAsleep(s, t); }
  }

  lemma BlockStrandsNobody(s: State, t: nat)
    requires NoneStranded(s) && t < |s.pcs|
    ensures NoneStranded(Block(s, t, s.round))
  {
    forall u | 0 <= u < |s.pcs| ensures !StillAsleep(Block(s, t, s.round), u) { assert !StillAsleep(s, u); }
  }

  lemma DepartStrandsNobody(s: State, t: nat)
    requires Shape(s) && NoneStranded(s) && t < |s.pcs| && Waiting(s.pcs[t])
    ensures NoneStranded(Depart(s, t))
  {
    forall u | 0 <= u < |s.pcs| ensures !StillAsleep(Depart(s, t), u) { assert !StillAsleep(s, u); }
  }

  /** With two threads the only waiter of a round is the one that the signal wakes. */
  lemma PairCompletes(s: State, t: nat, pick: nat)
    requires Shape(s) && |s.pcs| == 2 && t < 2 && s.pcs[t] == Out && (s.queue != [] ==> pick < |s.queue|)
    ensures Shape(Complete(s)) && NoneStranded(Signal(Complete(s), pick))
  {
    CompleteShape(s);
    var s', u := Signal(Complete(s), pick), 1 - t;
    if s.queue == [] {
      assert !s.pcs[u].Asleep?;
      assert s'.pcs == s.pcs;
    } else {
      assert s.queue[pick] == u;
      assert s'.pcs == s.pcs[u := Woken(s.pcs[u].round)];
    }
  }

  lemma PairArrives(s: State, t: nat, pick: nat)
    requires Kept(s) && |s.pcs| == s.threshold == 2 && NoneStranded(s) && Enabled(s, Arrive(t, pick))
    ensures NoneStranded(Step(s, Arrive(t, pick)))
  {
    PlusExact(s.inside, |s.pcs|);
    if s.inside + 1 == s.threshold {
      PairCompletes(s, t, pick);
    } else {
      EnterStrandsNobody(s, t);
    }
  }

  lemma EnterStrandsNobody(s: State, t: nat)
    requires Shape(s) && NoneStranded(s) && t < |s.pcs|
    ensures NoneStranded(Block(Enter(s), t, s.round))
  {
    var s1 := Enter(s);
    assert forall u :: 0 <= u < |s.pcs| ==> StillAsleep(s1, u) == StillAsleep(s, u);
    BlockStrandsNobody(s1, t);
  }

  lemma PairStep(s: State, e: Event)
    requires Inv(s) && Accounted(s) && |s.pcs| == s.threshold == 2 && NoneStranded(s) && Enabled(s, e)
    ensures NoneStranded(Step(s, e))
  {
    match e
    case Arrive(t, pick) => PairArrives(s, t, pick);
    case Resume(t, pick) =>
      SameOrPrevious(s, t);
      if s.pcs[t].round == s.round {
        BlockStrandsNobody(s, t);
      } else {
        DepartShape(s, t);
        DepartStrandsNobody(s, t);
        SignalStrandsNobody(Depart(s, t), pick);
      }
    case Wake(t) =>
      forall u | 0 <= u < |s.pcs| ensures !StillAsleep(Step(s, e), u) { assert !StillAsleep(s, u); }
  }

  /** What keeps everybody from being stranded. */
  ghost predicate Unstranded(s: State) {
    && Inv(s) && Few(s) && Accounted(s) && !(3 <= s.threshold == |s.pcs|)
    && (|s.pcs| < s.threshold ==> s.round == 0)
    && (s.threshold == 2 ==> NoneStranded(s))
  }

  lemma UnstrandedStep(s: State, e: Event)
    requires Unstranded(s) && Enabled(s, e)
    ensures Unstranded(Step(s, e))
  {
    StepInv(s, e);
    StepCounters(s, e);
    StepAccounted(s, e);
    if |s.pcs| < s.threshold {
      FirstRoundStays(s, e);
    } else if s.threshold == 2 {
      PairStep(s, e);
    }
  }

  lemma UnstrandedRun(s: State, es: seq<Event>)
    requires Unstranded(s) && AllEnabled(Step, s, es)
    ensures Unstranded(Final(Step, s, es))
  {
    forall x: State, e: Event | Unstranded(x) && Enabled(x, e) ensures Unstranded(Step(x, e)) { UnstrandedStep(x, e); }
    RunKeeps(Step, Unstranded, s, es);
  }

  lemma UnstrandedIsChained(s: State)
    requires Unstranded(s)
    ensures Chained(s)
  {
    if t :| 0 <= t < |s.pcs| && StillAsleep(s, t) {
      if |s.pcs| == s.threshold && s.threshold <= 1 { NobodyBehind(s, t); }
    }
  }

  /** In all other cases the order does not matter, even with waking up for no reason. */
  lemma ChainSafe(s0: State, es: seq<Event>)
    requires Init(s0) && Few(s0) && AllEnabled(Step, s0, es) && !(3 <= s0.threshold == |s0.pcs|)
    ensures Chained(Final(Step, s0, es))
  {
    InitHealthy(s0);
    UnstrandedRun(s0, es);
    UnstrandedIsChained(Final(Step, s0, es));
  }

  /** A run without waking up for no reason that breaks the chain. */
  ghost predicate Breaks(s0: State, es: seq<Event>) {
    Init(s0) && AllEnabled(Step, s0, es) && NoWake(es) && !Chained(Final(Step, s0, es))
  }

  /** Exactly when the chain depends on the order of waking up, among at most threshold
      participants: if they are exactly threshold, and at least three. */
  lemma OrderMattersExactly(threshold: i32, threads: nat)
    requires threads <= threshold && threads < 0x7fff_ffff
    ensures (exists s0: State, es: seq<Event> :: s0.threshold == threshold && |s0.pcs| == threads && Breaks(s0, es))
            <==> 3 <= threshold == threads
  {
    if 3 <= threshold == threads {
      var s0, es, s := WithoutFifoAWaiterIsStuck(threshold, threads);
      assert Breaks(s0, es);
    }
    forall s0: State, es: seq<Event> | s0.threshold == threshold && |s0.pcs| == threads && Breaks(s0, es)
      ensures 3 <= threshold == threads
    {
      if !(3 <= threshold == threads) { ChainSafe(s0, es); }
    }
  }

  // ---- the functions themselves ----

  /** What an arrival does to the fields. */
  lemma ArriveFields(s: State, t: nat, pick: nat)
    requires Kept(s) && Enabled(s, Arrive(t, pick))
    ensures AddWrap(s.inside, 1) == s.inside + 1
    ensures var s' := Step(s, Arrive(t, pick));
      && s'.threshold == s.threshold && |s'.pcs| == |s.pcs|
      && if s.inside + 1 == s.threshold
         then s'.inside == 0 && s'.out == AddWrap(AddWrap(s.inside, 1), -1) && s'.pcs[t] == Out
              && s'.generation == (s.generation + 1) % 0x1_0000_0000
         else s'.inside == s.inside + 1 && s'.out == s.out && s'.pcs[t] != Out && s'.generation == s.generation
  {
    PlusExact(s.inside, |s.pcs|);
  }

  /** struct pthread_barrier without its mutex and condition variable, which belong to the
      monitor. */
  class Barrier {
    const threshold: i32
    var inside: i32
    var out: i32
    var generation: u32
    var live: bool          // the caller's pointer has not been cleared
    ghost var view: State

    ghost predicate Valid()
      reads this
    {
      && threshold == view.threshold && inside == view.inside && out == view.out && generation == view.generation
      && Consistent(view)
    }

    /** pthread_barrier_init, lines 42-53. */
    constructor (count: u32, threads: nat)
      requires threads < 0x7fff_ffff
      ensures Valid() && Init(view) && |view.pcs| == threads && threshold == Signed32(count) && live
    {
      live := true;
      threshold := Signed32(count);
      inside, out, generation := 0, 0, 0;
      view := State(Signed32(count), 0, 0, 0, [], seq(threads, i => Out), 0, [0], [0], [0]);
      new;
      InitConsistent(view);
    }

    /** pthread_barrier_wait, lines 110-142, up to blocking (false) or returning
        PTHREAD_BARRIER_SERIAL_THREAD. */
    method Wait(t: nat, pick: nat) returns (serial: bool)
      requires Valid() && Enabled(view, Arrive(t, pick))
      modifies this
      ensures Valid() && view == Step(old(view), Arrive(t, pick))
      ensures serial <==> old(inside) + 1 == threshold
      ensures serial <==> view.pcs[t] == Out
    {
      ArriveFields(view, t, pick);
      StepConsistent(view, Arrive(t, pick));
      view := Step(view, Arrive(t, pick));
      inside := AddWrap(inside, 1);
      if inside == threshold {
        out := AddWrap(inside, -1);
        inside := 0;
        generation := (generation + 1) % 0x1_0000_0000;
        serial := true;
      } else {
        serial := false;   // gen = b->generation; block on the condition
      }
    }

    /** pthread_barrier_wait, lines 128-142, after waking up with its local gen: blocks again, or
        returns 0. */
    method Resume(t: nat, gen: u32, pick: nat) returns (done: bool)
      requires Valid() && Enabled(view, Event.Resume(t, pick)) && gen == Word(view.pcs[t].round)
      modifies this
      ensures Valid() && view == Step(old(view), Event.Resume(t, pick))
      ensures done <==> gen != old(generation)
    {
      StepConsistent(view, Event.Resume(t, pick));
      view := Step(view, Event.Resume(t, pick));
      if gen == generation { return false; }
      out := AddWrap(out, -1);
      done := true;
    }

    /** A waiter wakes up without a signal. */
    ghost method Stir(t: nat)
      requires Valid() && Enabled(view, Wake(t))
      modifies this`view
      ensures Valid() && view == Step(old(view), Wake(t))
    {
      StepConsistent(view, Wake(t));
      view := Step(view, Wake(t));
    }

    /** pthread_barrier_destroy, lines 78-88: whether it fails with EBUSY. */
    method Destroy() returns (busy: bool)
      requires Valid() && live
      modifies this`live
      ensures Valid() && live == busy
      ensures Few(view) ==> (busy <==> exists t :: 0 <= t < |view.pcs| && Waiting(view.pcs[t]))
      ensures !busy ==> forall t :: 0 <= t < |view.pcs| && Waiting(view.pcs[t]) ==> view.pcs[t].round < view.round
    {
      if Few(view) { BusyExactly(view); }
      NotBusyNoneNow(view);
      busy := out > 0 || inside > 0;
      if !busy { live := false; }
    }
  }
}
