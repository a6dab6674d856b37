/** Redirect loops in an archive's directory, found with a slow and a fast pointer. */
module Redirects {
  import opened Counting

  /** A directory entry, as far as redirects go. */
  datatype Dirent = Redirect(target: nat) | Item

  predicate IsRedirect(d: seq<Dirent>, x: nat) { x < |d| && d[x].Redirect? }

  /** At least `n` redirects can be followed from `x`. */
  predicate Alive(d: seq<Dirent>, x: nat, n: nat)
    decreases n
  {
    n == 0 || (IsRedirect(d, x) && Alive(d, d[x].target, n - 1))
  }

  /** The entry reached after `n` redirects. */
  function Nth(d: seq<Dirent>, x: nat, n: nat): nat
    requires Alive(d, x, n)
    decreases n
  {
    if n == 0 then x else Nth(d, d[x].target, n - 1)
  }

  /** Following redirects never reaches an item or an index out of range. */
  ghost predicate Endless(d: seq<Dirent>, x: nat) { forall n: nat :: Alive(d, x, n) }

  lemma {:induction false} Compose(d: seq<Dirent>, x: nat, a: nat, b: nat)
    requires Alive(d, x, a)
    ensures Alive(d, x, a + b) <==> Alive(d, Nth(d, x, a), b)
    ensures Alive(d, x, a + b) ==> Nth(d, x, a + b) == Nth(d, Nth(d, x, a), b)
    decreases a
  {
    if a > 0 { Compose(d, d[x].target, a - 1, b); }
  }

  lemma AliveLess(d: seq<Dirent>, x: nat, n: nat, m: nat)
    requires Alive(d, x, n) && m <= n
    ensures Alive(d, x, m)
    decreases m
  {
    if m > 0 { AliveLess(d, d[x].target, n - 1, m - 1); }
  }

  lemma OneMore(d: seq<Dirent>, x: nat, n: nat)
    requires Alive(d, x, n)
    ensures Alive(d, x, n + 1) <==> IsRedirect(d, Nth(d, x, n))
    ensures Alive(d, x, n + 1) ==> Nth(d, x, n + 1) == d[Nth(d, x, n)].target
  {
    Compose(d, x, n, 1);
    var y := Nth(d, x, n);
    assert Alive(d, y, 1) <==> IsRedirect(d, y);
    if IsRedirect(d, y) { assert Nth(d, y, 1) == Nth(d, d[y].target, 0); }
  }

  /** Meeting a second time, `p` steps later, means going round for ever. */
  lemma {:induction false} RoundForEver(d: seq<Dirent>, x: nat, a: nat, p: nat, n: nat)
    requires p >= 1 && Alive(d, x, a + p) && (AliveLess(d, x, a + p, a); Nth(d, x, a + p) == Nth(d, x, a))
    ensures Alive(d, x, n)
    decreases n
  {
    if n <= a + p {
      AliveLess(d, x, a + p, n);
    } else {
      RoundForEver(d, x, a, p, n - p);
      AliveLess(d, x, a + p, a);
      Compose(d, x, a, n - p - a);
      Compose(d, x, a + p, n - p - a);
    }
  }

  /** On the cycle the entry repeats after every multiple of the period. */
  lemma {:induction false} Periodic(d: seq<Dirent>, x: nat, a: nat, p: nat, k: nat, m: nat)
    requires p >= 1 && Endless(d, x) && Nth(d, x, a) == Nth(d, x, a + p) && k >= a
    ensures Nth(d, x, k) == Nth(d, x, k + m * p)
    decreases m
  {
    if m > 0 {
      Periodic(d, x, a, p, k, m - 1);
      var j := k + (m - 1) * p;
      assert k + m * p == j + p by { assert m * p == (m - 1) * p + p; }
      assert (m - 1) * p >= 0;
      Compose(d, x, a, j - a);
      Compose(d, x, a + p, j - a);
      assert (a + p) + (j - a) == j + p;
    }
  }

  // ----- a chain longer than the directory repeats an entry -----

  function Path(d: seq<Dirent>, x: nat, n: nat): (s: seq<nat>)
    requires Alive(d, x, n)
    ensures |s| == n
    decreases n
  {
    if n == 0 then [] else [x] + Path(d, d[x].target, n - 1)
  }

  lemma {:induction false} PathAt(d: seq<Dirent>, x: nat, n: nat, k: nat)
    requires Alive(d, x, n) && k < n
    ensures Alive(d, x, k) && Path(d, x, n)[k] == Nth(d, x, k) && IsRedirect(d, Nth(d, x, k))
    decreases n
  {
    if k > 0 { PathAt(d, d[x].target, n - 1, k - 1); }
  }

  /** Some entry of an endless chain is met twice within |d| steps. */
  lemma Repeats(d: seq<Dirent>, x: nat) returns (a: nat, b: nat)
    requires Endless(d, x)
    ensures a < b <= |d| && Nth(d, x, a) == Nth(d, x, b)
  {
    var n := |d| + 1;
    var s := Path(d, x, n);
    forall k | 0 <= k < |s|
      ensures s[k] < |d|
    {
      PathAt(d, x, n, k);
    }
    Pigeonhole(s, |d|);
    a, b :| 0 <= a < b < |s| && s[a] == s[b];
    PathAt(d, x, n, a);
    PathAt(d, x, n, b);
  }

  /** The pointers meet: some k at most |d| has the k-th and the 2k-th entry equal. */
  lemma Meeting(d: seq<Dirent>, x: nat) returns (k: nat)
    requires Endless(d, x)
    ensures 1 <= k <= |d| && Nth(d, x, k) == Nth(d, x, 2 * k)
  {
    var a, b := Repeats(d, x);
    var p := b - a;
    var m := if a == 0 then 1 else (a + p - 1) / p;
    k := m * p;
    MultipleAbove(a, p, m);
    Periodic(d, x, a, p, k, m);
  }

  lemma MultipleAbove(a: nat, p: nat, m: nat)
    requires p >= 1 && m == if a == 0 then 1 else (a + p - 1) / p
    ensures a <= m * p <= a + p && m * p >= 1
  {
    if a > 0 {
      assert a + p - 1 == m * p + (a + p - 1) % p by { DivisionIdentity(a + p - 1, p); }
    }
  }

  lemma DivisionIdentity(x: nat, p: nat)
    requires p >= 1
    ensures x == x / p * p + x % p
  {
  }

  // ----- the search -----

  /** `loop` is a cycle of distinct redirects, in order, that the chain from `x` enters. */
  ghost predicate CycleReached(d: seq<Dirent>, x: nat, loop: seq<nat>)
  {
    && loop != [] && Distinct(loop)
    && (forall k :: 0 <= k < |loop| ==> IsRedirect(d, loop[k]) && d[loop[k]].target == loop[if k + 1 == |loop| then 0 else k + 1])
    && exists n: nat :: Alive(d, x, n) && Nth(d, x, n) == loop[0]
  }

  /** The entries from `x` up to the first return to it. */
  method CollectLoop(d: seq<Dirent>, x: nat, ghost p: nat) returns (loop: seq<nat>)
    requires p >= 1 && Alive(d, x, p) && Nth(d, x, p) == x
    ensures loop != [] && loop[0] == x && Distinct(loop)
    ensures forall k :: 0 <= k < |loop| ==> IsRedirect(d, loop[k]) && d[loop[k]].target == loop[if k + 1 == |loop| then 0 else k + 1]
  {
    loop := [x];
    assert Nth(d, x, 0) == x;
    AliveLess(d, x, p, 1);
    OneMore(d, x, 0);
    var curr := d[x].target;
    while curr != x
      invariant 1 <= |loop| <= p && loop[0] == x
      invariant Alive(d, x, |loop|) && curr == Nth(d, x, |loop|)
      invariant forall k :: 0 <= k < |loop| ==> Alive(d, x, k) && loop[k] == Nth(d, x, k) && IsRedirect(d, loop[k])
      invariant forall k :: 0 <= k < |loop| - 1 ==> d[loop[k]].target == loop[k + 1]
      invariant d[loop[|loop| - 1]].target == curr
      invariant forall k :: 1 <= k < |loop| ==> loop[k] != x
      decreases p - |loop|
    {
      AliveLess(d, x, p, |loop| + 1);
      OneMore(d, x, |loop|);
      loop := loop + [curr];
      curr := d[curr].target;
    }
    NoEarlierRepeat(d, x, loop);
  }

  /** Two equal entries before the first return would lead to an earlier return. */
  lemma NoEarlierRepeat(d: seq<Dirent>, x: nat, loop: seq<nat>)
    requires loop != [] && loop[0] == x && Alive(d, x, |loop|) && Nth(d, x, |loop|) == x
    requires forall k :: 0 <= k < |loop| ==> Alive(d, x, k) && loop[k] == Nth(d, x, k)
    requires forall k :: 1 <= k < |loop| ==> loop[k] != x
    ensures Distinct(loop)
  {
    forall a, b | 0 <= a < b < |loop|
      ensures loop[a] != loop[b]
    {
      if loop[a] == loop[b] {
        var n := |loop|;
        Compose(d, x, b, n - b);
        AliveLess(d, x, n, a + (n - b));
        Compose(d, x, a, n - b);
        assert false;
      }
    }
  }

  /** Follows one chain with both pointers; `loop` is empty when the chain ends. */
  method FindLoop(d: seq<Dirent>, i: nat) returns (loop: seq<nat>)
    requires IsRedirect(d, i)
    ensures loop != [] <==> Endless(d, i)
    ensures loop != [] ==> CycleReached(d, i, loop)
  {
    var slow, fast, round := i, i, 0;
    while true
      invariant Alive(d, i, round) && fast == Nth(d, i, round)
      invariant Alive(d, i, round / 2) && slow == Nth(d, i, round / 2)
      invariant round <= 2 * |d|
      invariant forall k: nat :: 1 <= k && 2 * k <= round ==> Alive(d, i, k) && Alive(d, i, 2 * k) && Nth(d, i, k) != Nth(d, i, 2 * k)
      decreases 2 * |d| - round
    {
      OneMore(d, i, round);
      if !IsRedirect(d, fast) {
        assert !Alive(d, i, round + 1);
        return [];
      }
      fast := d[fast].target;
      OneMore(d, i, round / 2);
      AliveLess(d, i, round + 1, round / 2 + 1);
      if round % 2 == 1 {
        if !IsRedirect(d, slow) {
          assert false;
        }
        slow := d[slow].target;
      }
      assert slow == Nth(d, i, (round + 1) / 2);
      if fast == slow && round > 0 {
        ghost var a := (round + 1) / 2;
        forall n: nat
          ensures Alive(d, i, n)
        {
          RoundForEver(d, i, a, round + 1 - a, n);
        }
        Compose(d, i, round + 1, round + 1 - a);
        Compose(d, i, a, round + 1 - a);
        assert Nth(d, i, round + 1) == fast;
        loop := CollectLoop(d, fast, round + 1 - a);
        return;
      }
      if round == 2 * |d| {
        MeetingSeen(d, i, round + 1);
      }
      round := round + 1;
    }
  }

  /** After 2|d| + 1 steps the pointers have met, if the chain is that long. */
  lemma MeetingSeen(d: seq<Dirent>, i: nat, n: nat)
    requires n == 2 * |d| + 1 && Alive(d, i, n)
    ensures exists k: nat :: 1 <= k && 2 * k < n && Alive(d, i, k) && Alive(d, i, 2 * k) && Nth(d, i, k) == Nth(d, i, 2 * k)
  {
    LongIsEndless(d, i, n);
    var k := Meeting(d, i);
  }

  /** A chain longer than the directory never ends. */
  lemma LongIsEndless(d: seq<Dirent>, i: nat, n: nat)
    requires n > |d| && Alive(d, i, n)
    ensures Endless(d, i)
  {
    AliveLess(d, i, n, |d| + 1);
    var s := Path(d, i, |d| + 1);
    forall k | 0 <= k < |s|
      ensures s[k] < |d|
    {
      PathAt(d, i, |d| + 1, k);
    }
    Pigeonhole(s, |d|);
    var a, b :| 0 <= a < b < |s| && s[a] == s[b];
    PathAt(d, i, |d| + 1, a);
    PathAt(d, i, |d| + 1, b);
    forall m: nat
      ensures Alive(d, i, m)
    {
      RoundForEver(d, i, a, b - a, m);
    }
  }

  /** One report per entry whose redirects never end, in directory order. */
  method CheckRedirectLoops(d: seq<Dirent>) returns (loops: seq<seq<nat>>, ghost starts: seq<nat>)
    ensures |starts| == |loops|
    ensures forall k, l :: 0 <= k < l < |starts| ==> starts[k] < starts[l]
    ensures forall i: nat :: i in starts <==> IsRedirect(d, i) && Endless(d, i)
    ensures forall k :: 0 <= k < |loops| ==> CycleReached(d, starts[k], loops[k])
  {
    loops, starts := [], [];
    var i := 0;
    while i < |d|
      invariant i <= |d| && |starts| == |loops|
      invariant forall k :: 0 <= k < |starts| ==> starts[k] < i
      invariant forall k, l :: 0 <= k < l < |starts| ==> starts[k] < starts[l]
      invariant forall j: nat :: j in starts <==> j < i && IsRedirect(d, j) && Endless(d, j)
      invariant forall k :: 0 <= k < |loops| ==> CycleReached(d, starts[k], loops[k])
    {
      if IsRedirect(d, i) {
        var loop := FindLoop(d, i);
        if loop != [] {
          loops := loops + [loop];
          starts := starts + [i];
        }
      }
      i := i + 1;
    }
  }
}
