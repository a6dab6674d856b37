/** Search trees whose nodes live in an arena and know their parents. */
module BinTreeSpec {
  import opened Counting

  /** A node of the arena: its word, its parent and its children. */
  datatype Node = Node(x: nat, p: nat, l: nat, r: nat)

  const NULL: nat := 0xffff_ffff

  /** The shape a root stands for. */
  datatype Tree = Leaf | Fork(l: Tree, v: nat, r: Tree)

  /** The nodes from left to right. */
  function In(t: Tree): seq<nat>
  {
    match t
    case Leaf => []
    case Fork(l, v, r) => In(l) + [v] + In(r)
  }

  /** The arena holds this tree: links down and up agree. */
  predicate Rep(ns: seq<Node>, t: Tree, v: nat, p: nat)
  {
    match t
    case Leaf => v == NULL
    case Fork(l, u, r) =>
      v == u && u < |ns| && u != NULL && ns[u].p == p && Rep(ns, l, ns[u].l, u) && Rep(ns, r, ns[u].r, u)
  }

  predicate InArena(ns: seq<Node>, t: Tree) { forall u :: u in In(t) ==> u < |ns| }

  /** Words to the left are at most that of the node, words to the right are greater. */
  predicate Ordered(ns: seq<Node>, t: Tree)
    requires InArena(ns, t)
  {
    match t
    case Leaf => true
    case Fork(l, v, r) =>
      && v in In(t)
      && (forall u :: u in In(l) ==> u in In(t))
      && (forall u :: u in In(r) ==> u in In(t))
      && (forall u :: u in In(l) ==> ns[u].x <= ns[v].x)
      && (forall u :: u in In(r) ==> ns[u].x > ns[v].x)
      && Ordered(ns, l) && Ordered(ns, r)
  }

  lemma InParts(l: Tree, v: nat, r: Tree)
    ensures forall u :: u in In(Fork(l, v, r)) <==> u in In(l) || u == v || u in In(r)
  {
  }

  lemma DistinctParts(l: Tree, v: nat, r: Tree)
    requires Distinct(In(Fork(l, v, r)))
    ensures Distinct(In(l)) && Distinct(In(r)) && v !in In(l) && v !in In(r)
    ensures forall u :: u in In(l) ==> u !in In(r)
  {
    var s, a, b := In(Fork(l, v, r)), In(l), In(r);
    assert forall i :: 0 <= i < |a| ==> s[i] == a[i];
    assert s[|a|] == v;
    assert forall i :: 0 <= i < |b| ==> s[|a| + 1 + i] == b[i];
  }

  lemma {:induction false} RepInArena(ns: seq<Node>, t: Tree, v: nat, p: nat)
    requires Rep(ns, t, v, p)
    ensures InArena(ns, t) && (t.Fork? ==> v in In(t) && v != NULL) && NULL !in In(t)
    decreases t
  {
    match t
    case Leaf =>
    case Fork(l, u, r) =>
      RepInArena(ns, l, ns[u].l, u);
      RepInArena(ns, r, ns[u].r, u);
  }

  /** What happens elsewhere does not matter. */
  lemma {:induction false} RepFrame(ns: seq<Node>, ns': seq<Node>, t: Tree, v: nat, p: nat)
    requires Rep(ns, t, v, p) && |ns'| == |ns| && forall u :: u in In(t) && u < |ns| ==> ns'[u] == ns[u]
    ensures Rep(ns', t, v, p)
    decreases t
  {
    match t
    case Leaf =>
    case Fork(l, u, r) =>
      InParts(l, u, r);
      RepFrame(ns, ns', l, ns[u].l, u);
      RepFrame(ns, ns', r, ns[u].r, u);
  }

  /** A tree moves to another parent when its root does. */
  lemma Reparent(ns: seq<Node>, ns': seq<Node>, t: Tree, v: nat, p: nat, p': nat)
    requires Rep(ns, t, v, p) && |ns'| == |ns| && Distinct(In(t))
    requires forall u :: u in In(t) && u < |ns| ==> ns'[u] == if u == v then ns[u].(p := p') else ns[u]
    ensures Rep(ns', t, v, p')
  {
    match t
    case Leaf =>
    case Fork(l, u, r) =>
      InParts(l, u, r);
      DistinctParts(l, u, r);
      RepFrame(ns, ns', l, ns[u].l, u);
      RepFrame(ns, ns', r, ns[u].r, u);
  }

  lemma {:induction false} OrderedFrame(ns: seq<Node>, ns': seq<Node>, t: Tree)
    requires InArena(ns, t) && Ordered(ns, t) && |ns'| == |ns| && forall u :: u in In(t) ==> ns'[u].x == ns[u].x
    ensures InArena(ns', t) && Ordered(ns', t)
    decreases t
  {
    match t
    case Leaf =>
    case Fork(l, v, r) =>
      OrderedFrame(ns, ns', l);
      OrderedFrame(ns, ns', r);
  }

  // ----- inserting -----

  function Insert(ns: seq<Node>, t: Tree, v: nat): Tree
    requires InArena(ns, t) && v < |ns|
  {
    match t
    case Leaf => Fork(Leaf, v, Leaf)
    case Fork(l, u, r) =>
      InParts(l, u, r);
      assert u in In(t);
      if ns[v].x <= ns[u].x then Fork(Insert(ns, l, v), u, r) else Fork(l, u, Insert(ns, r, v))
  }

  /** The node under which a word goes. */
  function Spot(ns: seq<Node>, t: Tree, x: nat): nat
    requires InArena(ns, t) && t.Fork?
  {
    InParts(t.l, t.v, t.r);
    assert t.v in In(t);
    var next := if x <= ns[t.v].x then t.l else t.r;
    if next == Leaf then t.v else Spot(ns, next, x)
  }

  lemma {:induction false} SpotInside(ns: seq<Node>, t: Tree, x: nat)
    requires InArena(ns, t) && t.Fork?
    ensures Spot(ns, t, x) in In(t)
    decreases t
  {
    InParts(t.l, t.v, t.r);
    assert t.v in In(t);
    var next := if x <= ns[t.v].x then t.l else t.r;
    if next != Leaf { SpotInside(ns, next, x); }
  }

  /** Hanging a node under its spot is inserting it. */
  lemma {:induction false} InsertRep(ns: seq<Node>, ns': seq<Node>, t: Tree, root: nat, p: nat, v: nat)
    requires Rep(ns, t, root, p) && InArena(ns, t) && t.Fork? && Distinct(In(t)) && v !in In(t) && v < |ns| == |ns'| && v != NULL
    requires var q := Spot(ns, t, ns[v].x);
             && q < |ns|
             && ns'[q] == (if ns[v].x <= ns[q].x then ns[q].(l := v) else ns[q].(r := v))
             && ns'[v] == Node(ns[v].x, q, NULL, NULL)
             && forall u :: u in In(t) && u != q ==> ns'[u] == ns[u]
    ensures Rep(ns', Insert(ns, t, v), root, p)
    decreases t
  {
    InParts(t.l, t.v, t.r);
    DistinctParts(t.l, t.v, t.r);
    assert t.v in In(t);
    var x := ns[v].x;
    var left := x <= ns[t.v].x;
    var next, other := if left then t.l else t.r, if left then t.r else t.l;
    var nextId, otherId := if left then ns[t.v].l else ns[t.v].r, if left then ns[t.v].r else ns[t.v].l;
    if next != Leaf {
      SpotInside(ns, next, x);
      InsertRep(ns, ns', next, nextId, t.v, v);
    } else {
      assert Insert(ns, Leaf, v) == Fork(Leaf, v, Leaf);
    }
    RepFrame(ns, ns', other, otherId, t.v);
  }

  lemma {:induction false} InsertIn(ns: seq<Node>, t: Tree, v: nat)
    requires InArena(ns, t) && v < |ns| && v !in In(t) && Distinct(In(t))
    ensures forall u :: u in In(Insert(ns, t, v)) <==> u in In(t) || u == v
    ensures Distinct(In(Insert(ns, t, v)))
    decreases t
  {
    match t
    case Leaf =>
    case Fork(l, u, r) =>
      InParts(l, u, r);
      DistinctParts(l, u, r);
      if ns[v].x <= ns[u].x {
        var l' := Insert(ns, l, v);
        InsertIn(ns, l, v);
        InParts(l', u, r);
        DistinctJoin(l', u, r);
      } else {
        var r' := Insert(ns, r, v);
        InsertIn(ns, r, v);
        InParts(l, u, r');
        DistinctJoin(l, u, r');
      }
  }

  lemma OrderedParts(ns: seq<Node>, l: Tree, v: nat, r: Tree)
    requires InArena(ns, Fork(l, v, r)) && Ordered(ns, Fork(l, v, r))
    ensures v < |ns| && InArena(ns, l) && InArena(ns, r) && Ordered(ns, l) && Ordered(ns, r)
    ensures forall u :: u in In(l) ==> ns[u].x <= ns[v].x
    ensures forall u :: u in In(r) ==> ns[u].x > ns[v].x
  {
  }

  lemma OrderedFork(ns: seq<Node>, l: Tree, v: nat, r: Tree)
    requires v < |ns| && InArena(ns, l) && InArena(ns, r) && Ordered(ns, l) && Ordered(ns, r)
    requires forall u :: u in In(l) ==> ns[u].x <= ns[v].x
    requires forall u :: u in In(r) ==> ns[u].x > ns[v].x
    ensures InArena(ns, Fork(l, v, r)) && Ordered(ns, Fork(l, v, r))
  {
    InParts(l, v, r);
  }

  lemma {:induction false} InsertOrdered(ns: seq<Node>, t: Tree, v: nat)
    requires InArena(ns, t) && v < |ns| && v !in In(t) && Distinct(In(t)) && Ordered(ns, t)
    ensures InArena(ns, Insert(ns, t, v)) && Ordered(ns, Insert(ns, t, v))
    decreases t
  {
    hide In, Distinct, Ordered;
    match t
    case Leaf =>
      NoNodes(ns);
      OrderedFork(ns, Leaf, v, Leaf);
    case Fork(l, u, r) =>
      InParts(l, u, r);
      DistinctParts(l, u, r);
      OrderedParts(ns, l, u, r);
      if ns[v].x <= ns[u].x {
        InsertIn(ns, l, v);
        InsertOrdered(ns, l, v);
        OrderedFork(ns, Insert(ns, l, v), u, r);
      } else {
        InsertIn(ns, r, v);
        InsertOrdered(ns, r, v);
        OrderedFork(ns, l, u, Insert(ns, r, v));
      }
  }

  lemma NoNodes(ns: seq<Node>)
    ensures In(Leaf) == [] && Ordered(ns, Leaf)
  {
  }

  lemma DistinctJoin(l: Tree, v: nat, r: Tree)
    requires Distinct(In(l)) && Distinct(In(r)) && v !in In(l) && v !in In(r) && forall u :: u in In(l) ==> u !in In(r)
    ensures Distinct(In(Fork(l, v, r)))
  {
    var s, a, b := In(Fork(l, v, r)), In(l), In(r);
    forall i, j | 0 <= i < j < |s|
      ensures s[i] != s[j]
    {
      if i < |a| { assert s[i] in a; }
      if j > |a| { assert s[j] == b[j - |a| - 1]; }
    }
  }

  // ----- replacing a subtree -----

  /** The subtree of a node. */
  function Sub(t: Tree, v: nat): (s: Tree)
    requires v in In(t)
    ensures s.Fork? && s.v == v
  {
    if t.v == v then t
    else
      InParts(t.l, t.v, t.r);
      if v in In(t.l) then Sub(t.l, v) else Sub(t.r, v)
  }

  lemma SubStep(t: Tree, v: nat)
    requires v in In(t)
    ensures t.v == v ==> Sub(t, v) == t
    ensures t.v != v && v in In(t.l) ==> Sub(t, v) == Sub(t.l, v)
    ensures t.v != v && v !in In(t.l) ==> v in In(t.r) && Sub(t, v) == Sub(t.r, v)
  {
    InParts(t.l, t.v, t.r);
  }

  lemma {:induction false} SubInside(t: Tree, v: nat)
    requires v in In(t)
    ensures forall u :: u in In(Sub(t, v)) ==> u in In(t)
    ensures Distinct(In(t)) ==> Distinct(In(Sub(t, v)))
    decreases t
  {
    InParts(t.l, t.v, t.r);
    if Distinct(In(t)) { DistinctParts(t.l, t.v, t.r); }
    if t.v != v {
      if v in In(t.l) { SubInside(t.l, v); } else { SubInside(t.r, v); }
    }
  }

  /** The parent of a node, p for the root. */
  function Above(t: Tree, v: nat, p: nat): nat
    requires v in In(t)
  {
    if t.v == v then p
    else
      InParts(t.l, t.v, t.r);
      if v in In(t.l) then Above(t.l, v, t.v) else Above(t.r, v, t.v)
  }

  /** The subtree of a node stands where its links say. */
  lemma {:induction false} SubRep(ns: seq<Node>, t: Tree, root: nat, p: nat, v: nat)
    requires Rep(ns, t, root, p) && v in In(t)
    ensures v < |ns| && ns[v].p == Above(t, v, p) && Rep(ns, Sub(t, v), v, Above(t, v, p))
    ensures (root == v <==> t.v == v)
    ensures t.v != v ==> Above(t, v, p) in In(t) && Above(t, v, p) != v
    decreases t
  {
    InParts(t.l, t.v, t.r);
    if t.v != v {
      if v in In(t.l) { SubRep(ns, t.l, ns[t.v].l, t.v, v); } else { SubRep(ns, t.r, ns[t.v].r, t.v, v); }
    }
  }

  function Replace(t: Tree, v: nat, s: Tree): Tree
    requires v in In(t)
  {
    if t.v == v then s
    else
      InParts(t.l, t.v, t.r);
      if v in In(t.l) then Fork(Replace(t.l, v, s), t.v, t.r) else Fork(t.l, t.v, Replace(t.r, v, s))
  }

  /** The link that led to v leads to w. */
  function Relink(n: Node, v: nat, w: nat): Node { if n.l == v then n.(l := w) else n.(r := w) }

  /** Putting another subtree in the place of one, and turning the link above, is replacing it. */
  lemma {:induction false} ReplaceRep(ns: seq<Node>, ns': seq<Node>, t: Tree, root: nat, p: nat, v: nat, s: Tree, w: nat)
    requires Rep(ns, t, root, p) && Distinct(In(t)) && v in In(t) && |ns'| == |ns|
    requires Rep(ns', s, w, Above(t, v, p))
    requires forall u :: u in In(t) && u !in In(Sub(t, v)) && u < |ns| ==> ns'[u] == if u == Above(t, v, p) then Relink(ns[u], v, w) else ns[u]
    ensures Rep(ns', Replace(t, v, s), if root == v then w else root, p)
    decreases t
  {
    if t.v != v {
      InParts(t.l, t.v, t.r);
      DistinctParts(t.l, t.v, t.r);
      SubRep(ns, t, root, p, v);
      var left := v in In(t.l);
      var next, other := if left then t.l else t.r, if left then t.r else t.l;
      var nextId, otherId := if left then ns[t.v].l else ns[t.v].r, if left then ns[t.v].r else ns[t.v].l;
      SubInside(next, v);
      SubRep(ns, next, nextId, t.v, v);
      NotOther(ns, t, root, p, v);
      ReplaceRep(ns, ns', next, nextId, t.v, v, s, w);
      RepFrame(ns, ns', other, otherId, t.v);
    }
  }

  /** The other child of the root is another node. */
  lemma NotOther(ns: seq<Node>, t: Tree, root: nat, p: nat, v: nat)
    requires Rep(ns, t, root, p) && Distinct(In(t)) && v in In(t) && t.v != v
    ensures v in In(t.l) ==> ns[t.v].r != v && (ns[t.v].l == v <==> t.l.v == v)
    ensures v in In(t.r) ==> ns[t.v].l != v && (ns[t.v].r == v <==> t.r.v == v)
  {
    InParts(t.l, t.v, t.r);
    DistinctParts(t.l, t.v, t.r);
    RepInArena(ns, t.l, ns[t.v].l, t.v);
    RepInArena(ns, t.r, ns[t.v].r, t.v);
  }

  // ----- deleting -----

  /** The nodes to the left of a subtree. */
  function Before(t: Tree, v: nat): seq<nat>
    requires v in In(t)
  {
    if t.v == v then []
    else
      InParts(t.l, t.v, t.r);
      if v in In(t.l) then Before(t.l, v) else In(t.l) + [t.v] + Before(t.r, v)
  }

  /** The nodes to the right of a subtree. */
  function After(t: Tree, v: nat): seq<nat>
    requires v in In(t)
  {
    if t.v == v then []
    else
      InParts(t.l, t.v, t.r);
      if v in In(t.l) then After(t.l, v) + [t.v] + In(t.r) else After(t.r, v)
  }

  lemma {:induction false} InAround(t: Tree, v: nat, s: Tree)
    requires v in In(t)
    ensures In(t) == Before(t, v) + In(Sub(t, v)) + After(t, v)
    ensures In(Replace(t, v, s)) == Before(t, v) + In(s) + After(t, v)
    decreases t
  {
    if t.v == v {
      assert [] + In(t) + [] == In(t) && [] + In(s) + [] == In(s);
    } else {
      InParts(t.l, t.v, t.r);
      if v in In(t.l) {
        InAround(t.l, v, s);
        Regroup(Before(t.l, v), In(Sub(t.l, v)), After(t.l, v), [t.v], In(t.r));
        Regroup(Before(t.l, v), In(s), After(t.l, v), [t.v], In(t.r));
      } else {
        InAround(t.r, v, s);
        Regroup(In(t.l), [t.v], Before(t.r, v), In(Sub(t.r, v)), After(t.r, v));
        Regroup(In(t.l), [t.v], Before(t.r, v), In(s), After(t.r, v));
      }
    }
  }

  lemma Regroup(a: seq<nat>, b: seq<nat>, c: seq<nat>, d: seq<nat>, e: seq<nat>)
    ensures a + b + c + d + e == a + b + (c + d + e)
  {
  }

  function Last(t: Tree): nat
    requires t.Fork?
  {
    if t.r == Leaf then t.v else Last(t.r)
  }

  function DropLast(t: Tree): Tree
    requires t.Fork?
  {
    if t.r == Leaf then t.l else Fork(t.l, t.v, DropLast(t.r))
  }

  lemma {:induction false} InLast(t: Tree)
    requires t.Fork?
    ensures In(t) == In(DropLast(t)) + [Last(t)]
    decreases t
  {
    if t.r == Leaf {
      assert In(t) == In(t.l) + [t.v] + [];
    } else {
      InLast(t.r);
      assert In(t.l) + [t.v] + (In(DropLast(t.r)) + [Last(t.r)]) == In(t.l) + [t.v] + In(DropLast(t.r)) + [Last(t.r)];
    }
  }

  /** What takes the place of a node: one child if the other is missing, else its predecessor above both. */
  function Join(l: Tree, r: Tree): Tree
  {
    if l == Leaf then r else if r == Leaf then l else Fork(DropLast(l), Last(l), r)
  }

  lemma InJoin(l: Tree, r: Tree)
    ensures In(Join(l, r)) == In(l) + In(r)
  {
    if l == Leaf { assert [] + In(r) == In(r); }
    else if r == Leaf { assert In(l) + [] == In(l); }
    else { InLast(l); }
  }

  function Delete(t: Tree, v: nat): Tree
    requires v in In(t)
  {
    var s := Sub(t, v);
    Replace(t, v, Join(s.l, s.r))
  }

  /** Deleting takes the node out of the order and nothing else. */
  lemma InDelete(t: Tree, v: nat) returns (a: seq<nat>, b: seq<nat>)
    requires v in In(t)
    ensures In(t) == a + [v] + b && In(Delete(t, v)) == a + b
  {
    hide Join, Before, After, Replace, Sub;
    var s := Sub(t, v);
    InAround(t, v, Join(s.l, s.r));
    InJoin(s.l, s.r);
    a, b := Before(t, v) + In(s.l), In(s.r) + After(t, v);
    Around(Before(t, v), In(s.l), v, In(s.r), After(t, v));
  }

  lemma Around(a: seq<nat>, l: seq<nat>, v: nat, r: seq<nat>, b: seq<nat>)
    ensures a + (l + [v] + r) + b == (a + l) + [v] + (r + b) && a + (l + r) + b == (a + l) + (r + b)
  {
  }

  lemma DeleteIn(t: Tree, v: nat)
    requires v in In(t) && Distinct(In(t))
    ensures forall u :: u in In(Delete(t, v)) <==> u in In(t) && u != v
    ensures Distinct(In(Delete(t, v)))
  {
    var a, b := InDelete(t, v);
    TakenOut(In(t), In(Delete(t, v)), a, v, b);
  }

  lemma TakenOut(s: seq<nat>, s': seq<nat>, a: seq<nat>, v: nat, b: seq<nat>)
    requires s == a + [v] + b && s' == a + b && Distinct(s)
    ensures Distinct(s') && forall u :: u in s' <==> u in s && u != v
  {
    assert s[|a|] == v;
    assert forall i :: 0 <= i < |s'| ==> s'[i] == s[if i < |a| then i else i + 1];
    forall u
      ensures u in s' <==> u in s && u != v
    {
      if u in s && u != v {
        var i :| 0 <= i < |s| && s[i] == u;
        assert s'[if i < |a| then i else i - 1] == u;
      }
    }
  }

  lemma {:induction false} LastIsMost(ns: seq<Node>, t: Tree)
    requires t.Fork? && InArena(ns, t) && Ordered(ns, t)
    ensures Last(t) in In(t) && (forall u :: u in In(t) ==> ns[u].x <= ns[Last(t)].x)
    ensures InArena(ns, DropLast(t)) && Ordered(ns, DropLast(t)) && forall u :: u in In(DropLast(t)) ==> u in In(t)
    decreases t
  {
    InParts(t.l, t.v, t.r);
    InLast(t);
    if t.r != Leaf {
      InLast(t.r);
      InParts(t.l, t.v, DropLast(t.r));
      LastIsMost(ns, t.r);
    }
  }

  lemma JoinOrdered(ns: seq<Node>, t: Tree)
    requires t.Fork? && InArena(ns, t) && Ordered(ns, t)
    ensures InArena(ns, Join(t.l, t.r)) && Ordered(ns, Join(t.l, t.r)) && forall u :: u in In(Join(t.l, t.r)) ==> u in In(t)
  {
    InParts(t.l, t.v, t.r);
    InJoin(t.l, t.r);
    if t.l != Leaf && t.r != Leaf {
      LastIsMost(ns, t.l);
      InParts(DropLast(t.l), Last(t.l), t.r);
    }
  }

  lemma {:induction false} ReplaceOrdered(ns: seq<Node>, t: Tree, v: nat, s: Tree)
    requires v in In(t) && InArena(ns, t) && Ordered(ns, t) && InArena(ns, s) && Ordered(ns, s)
    requires forall u :: u in In(s) ==> u in In(Sub(t, v))
    ensures InArena(ns, Replace(t, v, s)) && Ordered(ns, Replace(t, v, s)) && forall u :: u in In(Replace(t, v, s)) ==> u in In(t)
    decreases t
  {
    hide Sub, Ordered;
    SubStep(t, v);
    if t.v != v {
      InParts(t.l, t.v, t.r);
      PartsOrdered(ns, t);
      if v in In(t.l) {
        SubInside(t.l, v);
        ReplaceOrdered(ns, t.l, v, s);
        LeftOrdered(ns, t, Replace(t.l, v, s));
      } else {
        SubInside(t.r, v);
        ReplaceOrdered(ns, t.r, v, s);
        RightOrdered(ns, t, Replace(t.r, v, s));
      }
    }
  }

  lemma PartsOrdered(ns: seq<Node>, t: Tree)
    requires t.Fork? && InArena(ns, t) && Ordered(ns, t)
    ensures InArena(ns, t.l) && Ordered(ns, t.l) && InArena(ns, t.r) && Ordered(ns, t.r)
  {
  }

  lemma LeftOrdered(ns: seq<Node>, t: Tree, l: Tree)
    requires t.Fork? && InArena(ns, t) && Ordered(ns, t) && InArena(ns, l) && Ordered(ns, l) && forall u :: u in In(l) ==> u in In(t.l)
    ensures InArena(ns, Fork(l, t.v, t.r)) && Ordered(ns, Fork(l, t.v, t.r)) && forall u :: u in In(Fork(l, t.v, t.r)) ==> u in In(t)
  {
    InParts(l, t.v, t.r);
    InParts(t.l, t.v, t.r);
  }

  lemma RightOrdered(ns: seq<Node>, t: Tree, r: Tree)
    requires t.Fork? && InArena(ns, t) && Ordered(ns, t) && InArena(ns, r) && Ordered(ns, r) && forall u :: u in In(r) ==> u in In(t.r)
    ensures InArena(ns, Fork(t.l, t.v, r)) && Ordered(ns, Fork(t.l, t.v, r)) && forall u :: u in In(Fork(t.l, t.v, r)) ==> u in In(t)
  {
    InParts(t.l, t.v, r);
    InParts(t.l, t.v, t.r);
  }

  lemma {:induction false} SubOrdered(ns: seq<Node>, t: Tree, v: nat)
    requires v in In(t) && InArena(ns, t) && Ordered(ns, t)
    ensures InArena(ns, Sub(t, v)) && Ordered(ns, Sub(t, v))
    decreases t
  {
    InParts(t.l, t.v, t.r);
    if t.v != v {
      if v in In(t.l) { SubOrdered(ns, t.l, v); } else { SubOrdered(ns, t.r, v); }
    }
  }

  lemma DeleteOrdered(ns: seq<Node>, t: Tree, v: nat)
    requires v in In(t) && InArena(ns, t) && Ordered(ns, t)
    ensures InArena(ns, Delete(t, v)) && Ordered(ns, Delete(t, v))
  {
    var s := Sub(t, v);
    SubOrdered(ns, t, v);
    JoinOrdered(ns, s);
    ReplaceOrdered(ns, t, v, Join(s.l, s.r));
  }

  // ----- looking up -----

  /** The topmost node with the word, twice, or the nodes to both sides of where it would be. */
  function Search(ns: seq<Node>, t: Tree, x: nat, a: nat, b: nat): (nat, nat)
    requires InArena(ns, t)
  {
    match t
    case Leaf => (a, b)
    case Fork(l, v, r) =>
      InParts(l, v, r);
      assert v in In(t);
      if x == ns[v].x then (v, v) else if x < ns[v].x then Search(ns, l, x, a, v) else Search(ns, r, x, v, b)
  }

  /** All words of the list are smaller, or greater. */
  predicate Below(ns: seq<Node>, s: seq<nat>, x: nat) { forall u :: u in s ==> u < |ns| && ns[u].x < x }
  predicate Beyond(ns: seq<Node>, s: seq<nat>, x: nat) { forall u :: u in s ==> u < |ns| && ns[u].x > x }

  function LastOr(s: seq<nat>, a: nat): nat { if s == [] then a else s[|s| - 1] }
  function FirstOr(s: seq<nat>, b: nat): nat { if s == [] then b else s[0] }

  /** The order splits where the word would be, and u and v are the nodes on both sides. */
  ghost predicate Splits(ns: seq<Node>, s: seq<nat>, x: nat, a: nat, b: nat, u: nat, v: nat)
  {
    exists s1, s2 :: s == s1 + s2 && Below(ns, s1, x) && Beyond(ns, s2, x) && u == LastOr(s1, a) && v == FirstOr(s2, b)
  }

  lemma SplitsLeft(ns: seq<Node>, s: seq<nat>, c: nat, more: seq<nat>, x: nat, a: nat, b: nat, u: nat, v: nat)
    requires Splits(ns, s, x, a, c, u, v) && Beyond(ns, [c] + more, x)
    ensures Splits(ns, s + [c] + more, x, a, b, u, v)
  {
    var s1, s2 :| s == s1 + s2 && Below(ns, s1, x) && Beyond(ns, s2, x) && u == LastOr(s1, a) && v == FirstOr(s2, c);
    var s2' := s2 + ([c] + more);
    assert s + [c] + more == s1 + s2';
    assert v == FirstOr(s2', b);
  }

  lemma SplitsRight(ns: seq<Node>, less: seq<nat>, c: nat, s: seq<nat>, x: nat, a: nat, b: nat, u: nat, v: nat)
    requires Splits(ns, s, x, c, b, u, v) && Below(ns, less + [c], x)
    ensures Splits(ns, less + [c] + s, x, a, b, u, v)
  {
    var s1, s2 :| s == s1 + s2 && Below(ns, s1, x) && Beyond(ns, s2, x) && u == LastOr(s1, c) && v == FirstOr(s2, b);
    var s1' := less + [c] + s1;
    assert less + [c] + s == s1' + s2;
    assert u == LastOr(s1', a);
  }

  /** A word that is not in the tree: the search returns the nodes on both sides of where it would be. */
  lemma {:induction false} SearchSplits(ns: seq<Node>, t: Tree, x: nat, a: nat, b: nat)
    requires InArena(ns, t) && Ordered(ns, t) && forall w :: w in In(t) ==> ns[w].x != x
    ensures var (u, v) := Search(ns, t, x, a, b); Splits(ns, In(t), x, a, b, u, v)
    decreases t
  {
    hide Splits;
    match t
    case Leaf => NothingSplits(ns, x, a, b);
    case Fork(l, c, r) =>
      InParts(l, c, r);
      var (u, v) := Search(ns, t, x, a, b);
      if x < ns[c].x {
        SearchSplits(ns, l, x, a, c);
        SplitsLeft(ns, In(l), c, In(r), x, a, b, u, v);
      } else {
        SearchSplits(ns, r, x, c, b);
        SplitsRight(ns, In(l), c, In(r), x, a, b, u, v);
      }
  }

  lemma NothingSplits(ns: seq<Node>, x: nat, a: nat, b: nat)
    ensures Splits(ns, [], x, a, b, a, b)
  {
    var none: seq<nat> := [];
    assert none == none + none && Below(ns, none, x) && Beyond(ns, none, x) && a == LastOr(none, a) && b == FirstOr(none, b);
  }

  /** A word that is in the tree: the search returns its topmost node, and all others with the word are in that node's left subtree. */
  lemma {:induction false} SearchFinds(ns: seq<Node>, t: Tree, x: nat, a: nat, b: nat, w: nat)
    requires InArena(ns, t) && Ordered(ns, t) && w in In(t) && ns[w].x == x && Distinct(In(t))
    ensures var (u, v) := Search(ns, t, x, a, b); u == v && u in In(t) && ns[u].x == x && (w == u || w in In(Sub(t, u).l))
    decreases t
  {
    InParts(t.l, t.v, t.r);
    DistinctParts(t.l, t.v, t.r);
    if x < ns[t.v].x {
      SearchFinds(ns, t.l, x, a, t.v, w);
    } else if x > ns[t.v].x {
      SearchFinds(ns, t.r, x, t.v, b, w);
    }
  }

  // ----- a node and what stands around it -----

  lemma {:induction false} AboveOutside(t: Tree, v: nat, p: nat)
    requires v in In(t) && Distinct(In(t)) && t.v != v
    ensures Above(t, v, p) !in In(Sub(t, v))
    decreases t
  {
    InParts(t.l, t.v, t.r);
    DistinctParts(t.l, t.v, t.r);
    if v in In(t.l) {
      SubInside(t.l, v);
      if t.l.v != v { AboveOutside(t.l, v, t.v); }
    } else {
      SubInside(t.r, v);
      if t.r.v != v { AboveOutside(t.r, v, t.v); }
    }
  }

  lemma Surroundings(ns: seq<Node>, t: Tree, root: nat, v: nat)
    requires Rep(ns, t, root, NULL) && Distinct(In(t)) && v in In(t) && v < |ns|
    ensures var s, p := Sub(t, v), if root == v then NULL else ns[v].p;
            && p == Above(t, v, NULL) && s.v == v
            && Rep(ns, s.l, ns[v].l, v) && Rep(ns, s.r, ns[v].r, v)
            && Distinct(In(s.l)) && Distinct(In(s.r)) && v !in In(s.l) && v !in In(s.r)
            && (forall u :: u in In(s.l) ==> u !in In(s.r))
            && (forall u :: u in In(s) <==> u in In(s.l) || u == v || u in In(s.r))
            && (p == NULL || (p < |ns| && p !in In(s)))
            && (root == v <==> p == NULL)
            && (forall u :: u in In(s) ==> u in In(t))
  {
    var s := Sub(t, v);
    SubRep(ns, t, root, NULL, v);
    SubInside(t, v);
    InParts(s.l, s.v, s.r);
    DistinctParts(s.l, s.v, s.r);
    RepInArena(ns, t, root, NULL);
    if t.v != v { AboveOutside(t, v, NULL); }
  }

  /** A root that is there is a node of its tree. */
  lemma RootIn(ns: seq<Node>, t: Tree, v: nat, p: nat)
    requires Rep(ns, t, v, p)
    ensures (v == NULL <==> t == Leaf) && (v != NULL ==> v < |ns| && v in In(t) && t.v == v)
    ensures NULL !in In(t) && InArena(ns, t)
  {
    RepInArena(ns, t, v, p);
  }

  // ----- taking out the last node -----

  /** A node after the last one, u, is unlinked. */
  function Unlinked(ns: seq<Node>, u: nat, w: nat): Node
    requires u < |ns| && w < |ns|
  {
    var n := if w == ns[u].p then ns[w].(r := ns[u].l) else ns[w];
    if w == ns[u].l then n.(p := ns[u].p) else n
  }

  lemma {:induction false} LastIn(t: Tree)
    requires t.Fork?
    ensures Last(t) in In(t)
    decreases t
  {
    InParts(t.l, t.v, t.r);
    if t.r != Leaf { LastIn(t.r); }
  }

  lemma {:induction false} DropLastRep(ns: seq<Node>, ns': seq<Node>, t: Tree, v: nat, p: nat)
    requires Rep(ns, t, v, p) && Distinct(In(t)) && t.Fork? && t.r != Leaf && |ns'| == |ns|
    requires Last(t) < |ns| && forall w :: w in In(t) && w != Last(t) && w < |ns| ==> ns'[w] == Unlinked(ns, Last(t), w)
    ensures Rep(ns', DropLast(t), v, p)
    decreases t
  {
    var u := Last(t);
    InParts(t.l, t.v, t.r);
    DistinctParts(t.l, t.v, t.r);
    LastIn(t.r);
    RepInArena(ns, t.l, ns[v].l, v);
    RepInArena(ns, t.r, ns[v].r, v);
    LastLinks(ns, t.r, ns[v].r, v);
    RepFrame(ns, ns', t.l, ns[v].l, v);
    var q := t.r;
    if q.r == Leaf {
      InParts(q.l, q.v, q.r);
      DistinctParts(q.l, q.v, q.r);
      Reparent(ns, ns', q.l, ns[u].l, u, v);
    } else {
      DropLastRep(ns, ns', q, ns[v].r, v);
    }
  }

  /** The last node has its links inside the tree, except that its parent may be the one above the tree. */
  lemma {:induction false} LastLinks(ns: seq<Node>, t: Tree, v: nat, p: nat)
    requires Rep(ns, t, v, p) && Distinct(In(t)) && t.Fork?
    ensures Last(t) < |ns| && ns[Last(t)].r == NULL
    ensures ns[Last(t)].l == NULL || ns[Last(t)].l in In(t)
    ensures ns[Last(t)].l != v && ns[Last(t)].l != Last(t) && (Last(t) != v ==> ns[Last(t)].l != ns[Last(t)].p)
    ensures if t.r == Leaf then ns[Last(t)].p == p && Last(t) == v else ns[Last(t)].p in In(t) && ns[Last(t)].p != Last(t) && Last(t) != v
    decreases t
  {
    InParts(t.l, t.v, t.r);
    DistinctParts(t.l, t.v, t.r);
    RepInArena(ns, t.l, ns[v].l, v);
    RepInArena(ns, t.r, ns[v].r, v);
    if t.r != Leaf {
      LastIn(t.r);
      LastLinks(ns, t.r, ns[v].r, v);
    }
  }

  // ----- walking in order -----

  function First(t: Tree): nat
    requires t.Fork?
  {
    if t.l == Leaf then t.v else First(t.l)
  }

  lemma {:induction false} InFirst(t: Tree)
    requires t.Fork?
    ensures In(t) != [] && In(t)[0] == First(t)
    decreases t
  {
    if t.l != Leaf { InFirst(t.l); }
  }

  /** How far below the root. */
  function Depth(t: Tree, v: nat): nat
    requires v in In(t)
  {
    if t.v == v then 0
    else
      InParts(t.l, t.v, t.r);
      1 + if v in In(t.l) then Depth(t.l, v) else Depth(t.r, v)
  }

  /** One step up: from a right child the parent and its left subtree are before it, from a left child after it. */
  lemma {:induction false} ParentStep(ns: seq<Node>, t: Tree, root: nat, p0: nat, v: nat)
    requires Rep(ns, t, root, p0) && Distinct(In(t)) && v in In(t) && t.v != v
    ensures var p := Above(t, v, p0);
            && v < |ns| && ns[v].p == p && p in In(t) && p < |ns| && p != NULL && Depth(t, p) < Depth(t, v)
            && if ns[p].r == v
               then Before(t, v) == Before(t, p) + In(Sub(t, p).l) + [p] && After(t, v) == After(t, p)
               else ns[p].l == v && Before(t, v) == Before(t, p) && After(t, v) == [p] + In(Sub(t, p).r) + After(t, p)
    decreases t
  {
    InParts(t.l, t.v, t.r);
    DistinctParts(t.l, t.v, t.r);
    SubRep(ns, t, root, p0, v);
    RepInArena(ns, t, root, p0);
    NotOther(ns, t, root, p0, v);
    if v in In(t.l) {
      if t.l.v != v {
        SubRep(ns, t.l, ns[t.v].l, t.v, v);
        ParentStep(ns, t.l, ns[t.v].l, t.v, v);
        var p := Above(t.l, v, t.v);
        Shift(In(Sub(t.l, p).r), After(t.l, p), [t.v], In(t.r), [p]);
      } else {
        assert [] + [t.v] + In(t.r) == [t.v] + In(t.r) + [];
      }
    } else {
      if t.r.v != v {
        SubRep(ns, t.r, ns[t.v].r, t.v, v);
        ParentStep(ns, t.r, ns[t.v].r, t.v, v);
        var p := Above(t.r, v, t.v);
        Shift(In(t.l), [t.v], Before(t.r, p), In(Sub(t.r, p).l), [p]);
      } else {
        assert In(t.l) + [t.v] + [] == [] + In(t.l) + [t.v];
      }
    }
  }

  lemma Shift(a: seq<nat>, b: seq<nat>, c: seq<nat>, d: seq<nat>, e: seq<nat>)
    ensures e + a + b + c + d == e + a + (b + c + d)
    ensures a + b + (c + d + e) == a + b + c + d + e
  {
  }

  /** What comes before and after a node in the order. */
  lemma Neighbours(t: Tree, v: nat, a: seq<nat>, b: seq<nat>)
    requires v in In(t) && Distinct(In(t)) && In(t) == a + [v] + b
    ensures a == Before(t, v) + In(Sub(t, v).l) && b == In(Sub(t, v).r) + After(t, v)
  {
    var s := Sub(t, v);
    InAround(t, v, Leaf);
    var a', b' := Before(t, v) + In(s.l), In(s.r) + After(t, v);
    Around(Before(t, v), In(s.l), v, In(s.r), After(t, v));
    assert In(t) == a' + [v] + b';
    assert In(t)[|a|] == v && In(t)[|a'|] == v;
    assert |a| == |a'|;
    assert a == In(t)[..|a|] && a' == In(t)[..|a|] && b == In(t)[|a| + 1..] && b' == In(t)[|a| + 1..];
  }

  lemma TopHasNone(t: Tree)
    requires t.Fork?
    ensures t.v in In(t) && Before(t, t.v) == [] && After(t, t.v) == []
  {
    InParts(t.l, t.v, t.r);
  }
}
