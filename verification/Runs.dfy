/** Runs of a step machine: sequences of events, each enabled where the one before it led.  A step
    function is partial; its precondition says when an event is enabled. */
module Runs {
  ghost predicate AllEnabled<S, E>(step: (S, E) --> S, s: S, es: seq<E>)
    decreases |es|
  {
    es == [] || (step.requires(s, es[0]) && AllEnabled(step, step(s, es[0]), es[1..]))
  }

  ghost function Final<S, E>(step: (S, E) --> S, s: S, es: seq<E>): S
    requires AllEnabled(step, s, es)
    decreases |es|
  {
    if es == [] then s else Final(step, step(s, es[0]), es[1..])
  }

  /** At the end of some run from an initial state. */
  ghost predicate EndsRun<S(!new), E(!new)>(init: S -> bool, step: (S, E) --> S, s: S) {
    exists s0: S, es: seq<E> :: init(s0) && AllEnabled(step, s0, es) && Final(step, s0, es) == s
  }

  /** Every step keeps inv, */
  ghost predicate Keeps<S(!new), E(!new)>(step: (S, E) --> S, inv: S -> bool) {
    KeepsUnder(step, inv, e => true)
  }

  /** or every step by an event of one kind. */
  ghost predicate KeepsUnder<S(!new), E(!new)>(step: (S, E) --> S, inv: S -> bool, kind: E -> bool) {
    forall s: S, e: E :: inv(s) && kind(e) && step.requires(s, e) ==> inv(step(s, e))
  }

  lemma RunKeeps<S(!new), E(!new)>(step: (S, E) --> S, inv: S -> bool, s: S, es: seq<E>)
    requires Keeps(step, inv) && inv(s) && AllEnabled(step, s, es)
    ensures inv(Final(step, s, es))
  {
    RunKeepsUnder(step, inv, e => true, s, es);
  }

  lemma {:induction false} RunKeepsUnder<S(!new), E(!new)>(step: (S, E) --> S, inv: S -> bool, kind: E -> bool,
                                                           s: S, es: seq<E>)
    requires KeepsUnder(step, inv, kind) && inv(s) && AllEnabled(step, s, es) && (forall e :: e in es ==> kind(e))
    ensures inv(Final(step, s, es))
    decreases |es|
  {
    if es != [] { RunKeepsUnder(step, inv, kind, step(s, es[0]), es[1..]); }
  }

  lemma EndKeeps<S(!new), E(!new)>(init: S -> bool, step: (S, E) --> S, inv: S -> bool, s: S)
    requires EndsRun(init, step, s) && Keeps(step, inv) && (forall s0: S :: init(s0) ==> inv(s0))
    ensures inv(s)
  {
    var s0: S, es: seq<E> :| init(s0) && AllEnabled(step, s0, es) && Final(step, s0, es) == s;
    RunKeeps(step, inv, s0, es);
  }

  lemma RunCons<S, E>(step: (S, E) --> S, s: S, e: E, es: seq<E>)
    requires step.requires(s, e) && AllEnabled(step, step(s, e), es)
    ensures AllEnabled(step, s, [e] + es) && Final(step, s, [e] + es) == Final(step, step(s, e), es)
  {
    assert ([e] + es)[1..] == es;
  }

  /** A run taken apart at its i-th event. */
  lemma {:induction false} RunSplit<S, E>(step: (S, E) --> S, s: S, es: seq<E>, i: nat) returns (s': S)
    requires i < |es| && AllEnabled(step, s, es)
    ensures AllEnabled(step, s, es[..i]) && Final(step, s, es[..i]) == s'
    ensures step.requires(s', es[i]) && AllEnabled(step, step(s', es[i]), es[i + 1..])
    ensures Final(step, s, es) == Final(step, step(s', es[i]), es[i + 1..])
    decreases |es|
  {
    if i == 0 {
      s' := s;
    } else {
      s' := RunSplit(step, step(s, es[0]), es[1..], i - 1);
      assert es[..i][1..] == es[1..][..i - 1] && es[1..][i..] == es[i + 1..];
    }
  }

  /** A run spelled out with the states it passes. */
  lemma {:induction false} RunThrough<S, E>(step: (S, E) --> S, es: seq<E>, ss: seq<S>)
    requires |ss| == |es| + 1
    requires forall i :: 0 <= i < |es| ==> step.requires(ss[i], es[i]) && step(ss[i], es[i]) == ss[i + 1]
    ensures AllEnabled(step, ss[0], es) && Final(step, ss[0], es) == ss[|es|]
    decreases |es|
  {
    if es != [] { RunThrough(step, es[1..], ss[1..]); }
  }

  lemma {:induction false} RunAppend<S, E>(step: (S, E) --> S, s: S, es: seq<E>, more: seq<E>)
    requires AllEnabled(step, s, es) && AllEnabled(step, Final(step, s, es), more)
    ensures AllEnabled(step, s, es + more) && Final(step, s, es + more) == Final(step, Final(step, s, es), more)
    decreases |es|
  {
    if es == [] {
      assert es + more == more;
    } else {
      RunAppend(step, step(s, es[0]), es[1..], more);
      RunCons(step, s, es[0], es[1..] + more);
      assert [es[0]] + (es[1..] + more) == es + more;
    }
  }
}
