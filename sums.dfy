/** Finite sums f(0) + ... + f(n-1), the shape of the source's `sum(... for i in ...)`. */
module Sums {

  function Sum(n: nat, f: nat -> int): int
  {
    if n == 0 then 0 else Sum(n - 1, f) + f(n - 1)
  }

  /** Sums of functions that agree on [0, n) agree. */
  lemma {:induction false} SumExt(n: nat, f: nat -> int, g: nat -> int)
    requires forall a: nat :: a < n ==> f(a) == g(a)
    ensures Sum(n, f) == Sum(n, g)
  {
    if n > 0 {
      SumExt(n - 1, f, g);
    }
  }

  /** A sum of non-negative terms is non-negative. */
  lemma {:induction false} SumNonNegative(n: nat, f: nat -> int)
    requires forall a: nat :: a < n ==> f(a) >= 0
    ensures Sum(n, f) >= 0
  {
    if n > 0 {
      SumNonNegative(n - 1, f);
    }
  }

  /** A sum whose terms are all zero except perhaps the one at `a0` equals that term. */
  lemma {:induction false} SumSingle(n: nat, f: nat -> int, a0: nat)
    requires forall a: nat :: a < n && a != a0 ==> f(a) == 0
    ensures Sum(n, f) == if a0 < n then f(a0) else 0
  {
    if n > 0 {
      SumSingle(n - 1, f, a0);
    }
  }

  /** Sums are additive. */
  lemma {:induction false} SumAdd(n: nat, f: nat -> int, g: nat -> int, h: nat -> int)
    requires forall a: nat :: a < n ==> h(a) == f(a) + g(a)
    ensures Sum(n, h) == Sum(n, f) + Sum(n, g)
  {
    if n > 0 {
      SumAdd(n - 1, f, g, h);
    }
  }

  /** The order of a double sum does not matter. */
  lemma {:induction false} SumSwap(n: nat, m: nat, f: (nat, nat) -> int)
    ensures Sum(n, (a: nat) => Sum(m, (b: nat) => f(a, b))) == Sum(m, (b: nat) => Sum(n, (a: nat) => f(a, b)))
  {
    if n == 0 {
      SumSingle(m, (b: nat) => Sum(n, (a: nat) => f(a, b)), m);
    } else {
      SumSwap(n - 1, m, f);
      var prev := (b: nat) => Sum(n - 1, (a: nat) => f(a, b));
      var last := (b: nat) => f(n - 1, b);
      SumAdd(m, prev, last, (b: nat) => Sum(n, (a: nat) => f(a, b)));
    }
  }

  /** Summing f over [0, n) is summing it over the distinct points s[0], s[1], ... when f
      vanishes everywhere else; g lists the values f takes at those points. */
  lemma {:induction false} SumReindex(n: nat, f: nat -> int, s: seq<nat>, g: nat -> int)
    requires forall t, t' :: 0 <= t < t' < |s| ==> s[t] != s[t']
    requires forall t :: 0 <= t < |s| ==> s[t] < n && f(s[t]) == g(t)
    requires forall a: nat :: a < n && a !in s ==> f(a) == 0
    ensures Sum(n, f) == Sum(|s|, g)
  {
    if |s| == 0 {
      SumSingle(n, f, n);
    } else {
      var last := s[|s| - 1];
      var s' := s[..|s| - 1];
      var rest := (a: nat) => if a == last then 0 else f(a);
      var spike := (a: nat) => if a == last then f(a) else 0;
      SumAdd(n, rest, spike, f);
      SumSingle(n, spike, last);
      forall t | 0 <= t < |s'|
        ensures s'[t] < n && rest(s'[t]) == g(t)
      {
        assert s'[t] == s[t] && s[t] != last;
      }
      forall a: nat | a < n && a !in s'
        ensures rest(a) == 0
      {
        if a != last {
          assert a !in s;
        }
      }
      SumReindex(n, rest, s', g);
    }
  }
}
