/** Distinct numbers and how many there are. */
module Counting {
  predicate Distinct(s: seq<nat>) { forall a, b :: 0 <= a < b < |s| ==> s[a] != s[b] }

  function Elements(s: seq<nat>): (r: set<nat>)
    ensures forall x :: x in r <==> x in s
    ensures Distinct(s) ==> |r| == |s|
  {
    if s == [] then {} else Elements(s[..|s| - 1]) + {s[|s| - 1]}
  }

  function Below(n: nat): (r: set<nat>)
    ensures forall x: nat :: x in r <==> x < n
    ensures |r| == n
  {
    if n == 0 then {} else Below(n - 1) + {n - 1}
  }

  lemma SubsetSize(a: set<nat>, b: set<nat>)
    requires a <= b
    ensures |a| <= |b|
  {
    assert b == a + (b - a);
  }

  lemma Pigeonhole(s: seq<nat>, n: nat)
    requires |s| > n && forall k :: 0 <= k < |s| ==> s[k] < n
    ensures !Distinct(s)
  {
    SubsetSize(Elements(s), Below(n));
  }

  /** How often a number occurs. */
  function Count(t: seq<nat>, s: nat): (n: nat)
    ensures n <= |t|
  {
    if t == [] then 0 else Count(t[..|t| - 1], s) + if t[|t| - 1] == s then 1 else 0
  }

  lemma CountSnoc(p: seq<nat>, x: nat, t: nat)
    ensures Count(p + [x], t) == Count(p, t) + if x == t then 1 else 0
  {
    assert (p + [x])[..|p|] == p;
  }

  lemma CountNext(codes: seq<nat>, i: nat)
    requires i < |codes|
    ensures forall v: nat :: Count(codes[..i + 1], v) == Count(codes[..i], v) + if codes[i] == v then 1 else 0
  {
    assert codes[..i + 1][..i] == codes[..i];
  }

  lemma NoCount()
    ensures forall v: nat :: Count([], v) == 0
  {
  }

  // ----- sums -----

  /** The sum of the first n numbers. */
  function Sum(s: seq<nat>, n: nat): nat
    requires n <= |s|
  {
    if n == 0 then 0 else Sum(s, n - 1) + s[n - 1]
  }

  lemma {:induction false} SumBump(s: seq<nat>, p: nat, n: nat)
    requires p < |s| && n <= |s|
    ensures Sum(s[p := s[p] + 1], n) == Sum(s, n) + if p < n then 1 else 0
    decreases n
  {
    if n > 0 { SumBump(s, p, n - 1); }
  }

  lemma {:induction false} SumZeros(s: seq<nat>, a: nat, n: nat)
    requires a <= n <= |s| && forall i :: a <= i < n ==> s[i] == 0
    ensures Sum(s, n) == Sum(s, a)
    decreases n
  {
    if a < n { SumZeros(s, a, n - 1); }
  }

  lemma {:induction false} SumFront(a: seq<nat>, b: seq<nat>, n: nat)
    requires n <= |a| && n <= |b| && forall i :: 0 <= i < n ==> a[i] == b[i]
    ensures Sum(a, n) == Sum(b, n)
    decreases n
  {
    if n > 0 { SumFront(a, b, n - 1); }
  }

  lemma {:induction false} OneInSum(s: seq<nat>, i: nat, n: nat)
    requires i < n <= |s|
    ensures s[i] <= Sum(s, n)
    decreases n
  {
    if i < n - 1 { OneInSum(s, i, n - 1); }
  }

  lemma NoSum(s: seq<nat>)
    ensures Sum(s, 0) == 0
  {
  }
}
