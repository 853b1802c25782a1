/** Counting the threads whose control state has a property; thread t is the index t. */
module Counting {

  function Bit(b: bool): nat { if b then 1 else 0 }

  function Count<T>(s: seq<T>, p: T -> bool): (n: nat)
    ensures n <= |s|
  {
    if s == [] then 0 else Bit(p(s[0])) + Count(s[1..], p)
  }

  /** One thread moves. */
  lemma {:induction false} CountUpdate<T>(s: seq<T>, i: nat, v: T, p: T -> bool)
    requires i < |s|
    ensures Count(s[i := v], p) == Count(s, p) - Bit(p(s[i])) + Bit(p(v))
  {
    if i == 0 {
      assert s[i := v][1..] == s[1..];
    } else {
      assert s[i := v][1..] == s[1..][i - 1 := v];
      CountUpdate(s[1..], i - 1, v, p);
    }
  }

  lemma {:induction false} CountPositive<T>(s: seq<T>, i: nat, p: T -> bool)
    requires i < |s| && p(s[i])
    ensures Count(s, p) >= 1
  {
    if i != 0 { CountPositive(s[1..], i - 1, p); }
  }

  lemma {:induction false} CountWitness<T>(s: seq<T>, p: T -> bool) returns (i: nat)
    requires Count(s, p) >= 1
    ensures i < |s| && p(s[i])
  {
    if p(s[0]) {
      i := 0;
    } else {
      i := CountWitness(s[1..], p);
      i := i + 1;
    }
  }

  lemma {:induction false} CountZero<T>(s: seq<T>, p: T -> bool)
    ensures Count(s, p) == 0 <==> forall i :: 0 <= i < |s| ==> !p(s[i])
  {
    if s != [] {
      CountZero(s[1..], p);
      assert forall i :: 0 < i < |s| ==> s[i] == s[1..][i - 1];
    }
  }

  /** A property and a weaker one. */
  lemma {:induction false} CountMonotone<T>(s: seq<T>, p: T -> bool, q: T -> bool)
    requires forall i :: 0 <= i < |s| && p(s[i]) ==> q(s[i])
    ensures Count(s, p) <= Count(s, q)
  {
    if s != [] {
      assert forall i :: 0 <= i < |s[1..]| ==> s[1..][i] == s[i + 1];
      CountMonotone(s[1..], p, q);
    }
  }

  /** All but thread t have the property. */
  lemma {:induction false} CountAllButOne<T>(s: seq<T>, t: nat, p: T -> bool)
    requires t < |s| && Count(s, p) >= |s| - 1 && !p(s[t])
    ensures forall u :: 0 <= u < |s| && u != t ==> p(s[u])
  {
    assert forall u :: 0 < u < |s| ==> s[u] == s[1..][u - 1];
    if t == 0 {
      CountAll(s[1..], p);
    } else if p(s[0]) {
      CountAllButOne(s[1..], t - 1, p);
    } else {
      CountAll(s[1..], p);
    }
  }

  lemma {:induction false} CountAll<T>(s: seq<T>, p: T -> bool)
    requires Count(s, p) >= |s|
    ensures forall u :: 0 <= u < |s| ==> p(s[u])
  {
    if s != [] {
      assert forall u :: 0 < u < |s| ==> s[u] == s[1..][u - 1];
      CountAll(s[1..], p);
    }
  }

  /** Two properties of which everybody has one. */
  lemma {:induction false} CountCovers<T>(s: seq<T>, p: T -> bool, q: T -> bool)
    requires forall i :: 0 <= i < |s| && !p(s[i]) ==> q(s[i])
    ensures Count(s, p) + Count(s, q) >= |s|
  {
    if s != [] {
      assert forall i :: 0 <= i < |s[1..]| ==> s[1..][i] == s[i + 1];
      CountCovers(s[1..], p, q);
    }
  }
}
