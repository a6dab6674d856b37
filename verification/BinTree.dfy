/** The binary tree of words behind a match finder: an arena of nodes used as a ring. */
module BinTree {
  import opened Bits
  import opened Counting
  import opened BinTreeSpec
  import opened HashTables

  const WORD_LEN: int := 4
  const TWO_WORDS: nat := 0x1_0000_0000

  class BinaryTree {
    const node: array<Node>
    var root: nat
    var hoff: int
    var front: nat
    var x: nat
    /** The tree the arena holds. */
    ghost var tree: Tree
    /** Everything written. */
    ghost var input: seq<Byte>

    /** Links, parents and order agree with the tree. */
    ghost predicate TreeOk()
      reads this, node
    {
      && node.Length < NULL
      && Rep(node[..], tree, root, NULL) && Distinct(In(tree))
      && InArena(node[..], tree) && Ordered(node[..], tree)
    }

    /** Hangs a node that is not in the tree under its place. */
    method Add(v: nat)
      requires TreeOk() && v < node.Length && v !in In(tree)
      modifies this`root, this`tree, node
      ensures TreeOk() && tree == Insert(old(node[..]), old(tree), v)
      ensures forall u :: u in In(tree) <==> u in old(In(tree)) || u == v
      ensures forall u :: 0 <= u < node.Length ==> node[u].x == old(node[u].x)
    {
      hide In, Distinct, Ordered, Insert, Spot, Rep;
      ghost var ns, t := node[..], tree;
      NoNodes(ns);
      InsertIn(ns, t, v);
      InsertOrdered(ns, t, v);
      node[v] := Node(node[v].x, NULL, NULL, NULL);
      if root == NULL {
        EmptyTree(ns, t, root);
        root := v;
        tree := Insert(ns, t, v);
        Single(ns, node[..], v);
        OrderedFrame(ns, node[..], tree);
        return;
      }
      NotEmpty(ns, t, root);
      var word := node[v].x;
      var p: nat := root;
      ghost var s, above := t, NULL;
      while true
        invariant node[..] == ns[v := Node(word, NULL, NULL, NULL)] && word == ns[v].x && root == old(root)
        invariant s.Fork? && Rep(ns, s, p, above) && InArena(ns, s) && v !in In(s) && p < node.Length && p != v
        invariant Spot(ns, s, word) == Spot(ns, t, word)
        decreases s
      {
        Descend(ns, s, p, above, word, v);
        if word <= node[p].x {
          if node[p].l == NULL {
            node[p] := node[p].(l := v);
            break;
          }
          above, s := p, s.l;
          p := node[p].l;
        } else {
          if node[p].r == NULL {
            node[p] := node[p].(r := v);
            break;
          }
          above, s := p, s.r;
          p := node[p].r;
        }
      }
      node[v] := node[v].(p := p);
      SpotInside(ns, t, word);
      tree := Insert(ns, t, v);
      InsertRep(ns, node[..], t, root, NULL, v);
      OrderedFrame(ns, node[..], tree);
    }

    static lemma EmptyTree(ns: seq<Node>, t: Tree, root: nat)
      requires Rep(ns, t, root, NULL) && root == NULL
      ensures t == Leaf
    {
    }

    static lemma NotEmpty(ns: seq<Node>, t: Tree, root: nat)
      requires Rep(ns, t, root, NULL) && root != NULL
      ensures t.Fork? && root == t.v && root < |ns| && root in In(t)
    {
    }

    static lemma Single(ns: seq<Node>, ns': seq<Node>, v: nat)
      requires v < |ns| == |ns'| && ns'[v].p == NULL && ns'[v].l == NULL && ns'[v].r == NULL && v != NULL
      ensures InArena(ns, Leaf) && Rep(ns', Insert(ns, Leaf, v), v, NULL)
    {
    }

    /** One step down towards the spot. */
    static lemma Descend(ns: seq<Node>, s: Tree, p: nat, above: nat, word: nat, v: nat)
      requires s.Fork? && Rep(ns, s, p, above) && InArena(ns, s) && v !in In(s)
      ensures p < |ns| && s.v == p && ns[p].p == above
      ensures var next := if word <= ns[p].x then s.l else s.r;
              var link := if word <= ns[p].x then ns[p].l else ns[p].r;
              && (link == NULL <==> next == Leaf)
              && (next == Leaf ==> Spot(ns, s, word) == p)
              && (next != Leaf ==> Rep(ns, next, link, p) && InArena(ns, next) && v !in In(next) && link < |ns| && link != v &&
                                   Spot(ns, next, word) == Spot(ns, s, word))
    {
      InParts(s.l, s.v, s.r);
      RepInArena(ns, s.l, ns[p].l, p);
      RepInArena(ns, s.r, ns[p].r, p);
    }

    /** Turns the link above v, which may be the root link. */
    method SetLink(v: nat, p: nat, w: nat)
      requires p == NULL || p < node.Length
      modifies this`root, node
      ensures if p == NULL then root == w && node[..] == old(node[..])
              else root == old(root) && node[..] == old(node[..])[p := Relink(old(node[p]), v, w)]
      ensures forall u :: 0 <= u < node.Length ==> node[u].x == old(node[u].x)
    {
      if p == NULL {
        root := w;
      } else if node[p].l == v {
        node[p] := node[p].(l := w);
      } else {
        node[p] := node[p].(r := w);
      }
    }

    /** Takes a node out of the tree. */
    method Remove(v: nat)
      requires TreeOk() && v in In(tree)
      modifies this`root, this`tree, node
      ensures TreeOk() && tree == Delete(old(tree), v)
      ensures forall u :: u in In(tree) <==> u in old(In(tree)) && u != v
      ensures forall u :: 0 <= u < node.Length ==> node[u].x == old(node[u].x)
    {
      hide In, Distinct, Ordered, Rep, Replace, Sub, Above, Join, Relink;
      ghost var ns, t, root0 := node[..], tree, root;
      DeleteIn(t, v);
      DeleteOrdered(ns, t, v);
      ghost var s := Sub(t, v);
      Surroundings(ns, t, root, v);
      RootIn(ns, s.l, ns[v].l, v);
      RootIn(ns, s.r, ns[v].r, v);
      var p := if root == v then NULL else node[v].p;
      var l, r := node[v].l, node[v].r;
      ghost var w := r;
      if l == NULL {
        SetLink(v, p, r);
        if r != NULL {
          node[r] := node[r].(p := p);
        }
        Reparent(ns, node[..], s.r, r, v, p);
      } else if r == NULL {
        SetLink(v, p, l);
        node[l] := node[l].(p := p);
        Reparent(ns, node[..], s.l, l, v, p);
        w := l;
      } else {
        w := MoveUp(v, p, l, r, s);
      }
      JoinCases(s.l, s.r);
      ReplaceRep(ns, node[..], t, root0, NULL, v, Join(s.l, s.r), w);
      tree := Delete(t, v);
      OrderedFrame(ns, node[..], tree);
    }

    static lemma JoinCases(l: Tree, r: Tree)
      ensures l == Leaf ==> Join(l, r) == r
      ensures l != Leaf && r == Leaf ==> Join(l, r) == l
    {
    }

    /** A node with two children, and what stands around it. */
    static ghost predicate TwoChildren(ns: seq<Node>, v: nat, p: nat, l: nat, r: nat, s: Tree)
    {
      && |ns| < NULL && v < |ns| && l < |ns| && r < |ns| && (p == NULL || p < |ns|)
      && s.Fork? && s.v == v && s.l.Fork? && s.r.Fork? && Rep(ns, s.l, l, v) && Rep(ns, s.r, r, v)
      && Distinct(In(s.l)) && Distinct(In(s.r)) && v !in In(s.l) && v !in In(s.r) && (forall u :: u in In(s.l) ==> u !in In(s.r))
      && p !in In(s.l) && p !in In(s.r) && p != v && l in In(s.l) && r in In(s.r)
      && NULL !in In(s.l) && NULL !in In(s.r)
    }

    /** Its predecessor takes its place. */
    method MoveUp(v: nat, p: nat, l: nat, r: nat, ghost s: Tree) returns (u: nat)
      requires TwoChildren(node[..], v, p, l, r, s)
      modifies this`root, node
      ensures root == (if p == NULL then u else old(root))
      ensures Rep(node[..], Join(s.l, s.r), u, p)
      ensures forall w :: 0 <= w < node.Length && w !in In(s.l) && w !in In(s.r) && w != v ==>
                node[w] == if w == p then Relink(old(node[w]), v, u) else old(node[w])
      ensures forall w :: 0 <= w < node.Length ==> node[w].x == old(node[w].x)
    {
      hide In, Distinct, Relink, Rep, Join;
      if node[l].r == NULL {
        MoveChild(v, p, l, r, s);
        return l;
      }
      ghost var ns := node[..];
      MoveFacts(ns, v, p, l, r, s);
      u := Rightmost(l, v, s.l);
      Unlink(u);
      ghost var ns1 := node[..];
      DropLastRep(ns, ns1, s.l, l, v);
      RepFrame(ns, ns1, s.r, r, v);
      LastOut(s.l);
      Seat(v, p, l, r, u);
      Reparent(ns1, node[..], DropLast(s.l), l, v, u);
      Reparent(ns1, node[..], s.r, r, v, u);
      Joined(node[..], s, l, r, u, p);
    }

    /** A left child without a right one moves up itself. */
    method MoveChild(v: nat, p: nat, l: nat, r: nat, ghost s: Tree)
      requires TwoChildren(node[..], v, p, l, r, s) && node[l].r == NULL
      modifies this`root, node
      ensures root == (if p == NULL then l else old(root))
      ensures Rep(node[..], Join(s.l, s.r), l, p)
      ensures forall w :: 0 <= w < node.Length && w !in In(s.l) && w !in In(s.r) && w != v ==>
                node[w] == if w == p then Relink(old(node[w]), v, l) else old(node[w])
      ensures forall w :: 0 <= w < node.Length ==> node[w].x == old(node[w].x)
    {
      hide In, Distinct, Relink;
      ghost var ns := node[..];
      InParts(s.l.l, l, s.l.r);
      DistinctParts(s.l.l, l, s.l.r);
      RootIn(ns, s.l.r, NULL, l);
      RootIn(ns, s.l.l, ns[l].l, l);
      node[l] := node[l].(r := r);
      node[r] := node[r].(p := l);
      node[l] := node[l].(p := p);
      SetLink(v, p, l);
      RepFrame(ns, node[..], s.l.l, ns[l].l, l);
      Reparent(ns, node[..], s.r, r, v, l);
    }

    /** The predecessor lies deeper, and its links stay inside the left subtree. */
    static lemma MoveFacts(ns: seq<Node>, v: nat, p: nat, l: nat, r: nat, s: Tree)
      requires TwoChildren(ns, v, p, l, r, s) && ns[l].r != NULL
      ensures var u := Last(s.l);
              && s.l.r != Leaf && u < |ns| && u in In(s.l) && u != l && ns[u].p in In(s.l) && ns[u].p != u && ns[u].p < |ns|
              && (ns[u].l == NULL || (ns[u].l in In(s.l) && ns[u].l < |ns| && ns[u].l != u && ns[u].l != ns[u].p && ns[u].l != l))
      ensures l in In(DropLast(s.l)) && DropLast(s.l).Fork?
    {
      hide In, Distinct;
      InParts(s.l.l, l, s.l.r);
      RootIn(ns, s.l.r, ns[l].r, l);
      LastIn(s.l);
      LastLinks(ns, s.l, l, v);
      RootIn(ns, s.l, l, v);
      InParts(s.l.l, l, DropLast(s.l.r));
    }

    /** Takes the last node of a subtree out of it. */
    method Unlink(u: nat)
      requires u < node.Length < NULL && node[u].p < node.Length && (node[u].l == NULL || node[u].l < node.Length)
      requires node[u].p != u && node[u].l != u
      modifies node
      ensures forall w :: 0 <= w < node.Length ==> node[w] == Unlinked(old(node[..]), u, w)
      ensures forall w :: 0 <= w < node.Length ==> node[w].x == old(node[w].x)
    {
      var ul, up := node[u].l, node[u].p;
      node[up] := node[up].(r := ul);
      if ul != NULL {
        node[ul] := node[ul].(p := up);
      }
    }

    /** Puts u where v was. */
    method Seat(v: nat, p: nat, l: nat, r: nat, u: nat)
      requires v < node.Length < NULL && l < node.Length && r < node.Length && u < node.Length && (p == NULL || p < node.Length)
      requires u != l && u != r && l != r && p != u && p != l && p != r && p != v
      modifies this`root, node
      ensures root == (if p == NULL then u else old(root))
      ensures node[u] == old(node[u]).(l := l, r := r, p := p) && node[l] == old(node[l]).(p := u) && node[r] == old(node[r]).(p := u)
      ensures p != NULL ==> node[p] == Relink(old(node[p]), v, u)
      ensures forall w :: 0 <= w < node.Length && w != u && w != l && w != r && w != p ==> node[w] == old(node[w])
      ensures forall w :: 0 <= w < node.Length ==> node[w].x == old(node[w].x)
    {
      hide Relink;
      node[u] := node[u].(l := l, r := r);
      node[l] := node[l].(p := u);
      node[r] := node[r].(p := u);
      SetLink(v, p, u);
      node[u] := node[u].(p := p);
    }

    static lemma Joined(ns: seq<Node>, s: Tree, l: nat, r: nat, u: nat, p: nat)
      requires s.Fork? && s.l.Fork? && s.r.Fork? && u == Last(s.l) && u < |ns| && u != NULL
      requires ns[u].l == l && ns[u].r == r && ns[u].p == p && Rep(ns, DropLast(s.l), l, u) && Rep(ns, s.r, r, u)
      ensures Rep(ns, Join(s.l, s.r), u, p)
    {
    }

    /** The last node of a subtree that goes on to the right. */
    method Rightmost(l: nat, ghost v: nat, ghost t: Tree) returns (u: nat)
      requires Rep(node[..], t, l, v) && t.Fork? && l < node.Length
      ensures u == Last(t) && u < node.Length
    {
      u := l;
      ghost var q, above := t, v;
      while node[u].r != NULL
        invariant q.Fork? && Rep(node[..], q, u, above) && Last(q) == Last(t) && u < node.Length
        decreases q
      {
        RootIn(node[..], q.r, node[u].r, u);
        q, above := q.r, u;
        u := node[u].r;
      }
      RootIn(node[..], q.r, NULL, u);
    }

    static lemma LastOut(t: Tree)
      requires t.Fork? && Distinct(In(t))
      ensures Distinct(In(DropLast(t))) && forall u :: u in In(DropLast(t)) <==> u in In(t) && u != Last(t)
    {
      InLast(t);
      assert In(DropLast(t)) + [Last(t)] + [] == In(t);
      TakenOut(In(t), In(DropLast(t)), In(DropLast(t)), Last(t), []);
    }

    // ----- looking up -----

    /** From the subtree at v: the topmost node with the word, or the nodes on both sides of it. */
    method Search(v0: nat, word: nat, ghost t: Tree, ghost p: nat) returns (a: nat, b: nat)
      requires Rep(node[..], t, v0, p) && InArena(node[..], t)
      ensures (a, b) == BinTreeSpec.Search(node[..], t, word, NULL, NULL)
    {
      hide In;
      a, b := NULL, NULL;
      if v0 == NULL {
        RootIn(node[..], t, v0, p);
        return;
      }
      var v := v0;
      ghost var s, above := t, p;
      while true
        invariant Rep(node[..], s, v, above) && InArena(node[..], s) && v != NULL
        invariant BinTreeSpec.Search(node[..], s, word, a, b) == BinTreeSpec.Search(node[..], t, word, NULL, NULL)
        decreases s
      {
        RootIn(node[..], s, v, above);
        InParts(s.l, v, s.r);
        RootIn(node[..], s.l, node[v].l, v);
        RootIn(node[..], s.r, node[v].r, v);
        if word <= node[v].x {
          if word == node[v].x {
            return v, v;
          }
          b := v;
          if node[v].l == NULL {
            return;
          }
          s, above := s.l, v;
          v := node[v].l;
        } else {
          a := v;
          if node[v].r == NULL {
            return;
          }
          s, above := s.r, v;
          v := node[v].r;
        }
      }
    }

    /** The last node of a subtree. */
    method Max(v: nat, ghost t: Tree, ghost p: nat) returns (u: nat)
      requires Rep(node[..], t, v, p)
      ensures if t == Leaf then u == NULL else u == Last(t) && u != NULL
    {
      RootIn(node[..], t, v, p);
      if v == NULL {
        return NULL;
      }
      u := Rightmost(v, p, t);
      LastIn(t);
    }

    /** The first node of a subtree. */
    method Min(v: nat, ghost t: Tree, ghost p: nat) returns (u: nat)
      requires Rep(node[..], t, v, p)
      ensures if t == Leaf then u == NULL else u == First(t) && u != NULL
    {
      RootIn(node[..], t, v, p);
      if v == NULL {
        return NULL;
      }
      u := v;
      ghost var s, above := t, p;
      while node[u].l != NULL
        invariant s.Fork? && Rep(node[..], s, u, above) && First(s) == First(t) && u < node.Length && u != NULL
        decreases s
      {
        RootIn(node[..], s.l, node[u].l, u);
        s, above := s.l, u;
        u := node[u].l;
      }
      RootIn(node[..], s.l, NULL, u);
    }

    /** The node before v in the order of words. */
    method Pred(v0: nat) returns (u: nat)
      requires TreeOk() && (v0 == NULL || v0 in In(tree))
      ensures v0 == NULL ==> u == NULL
      ensures forall a, b :: In(tree) == a + [v0] + b ==> u == LastOr(a, NULL)
    {
      hide In, Distinct, Ordered, Rep, Sub, Before, After, Depth;
      RootIn(node[..], tree, root, NULL);
      if v0 == NULL {
        NotListed(tree, v0);
        return NULL;
      }
      Surroundings(node[..], tree, root, v0);
      ghost var s := Sub(tree, v0);
      u := Max(node[v0].l, s.l, v0);
      if u != NULL {
        PredBelow(tree, v0, u);
        return;
      }
      ghost var target := LastOr(Before(tree, v0), NULL);
      PredAbove(tree, v0);
      var v := v0;
      while true
        invariant v in In(tree) && v < node.Length && LastOr(Before(tree, v), NULL) == target
        decreases Depth(tree, v)
      {
        UpFrom(node[..], tree, root, v);
        var p := node[v].p;
        if p == NULL {
          return NULL;
        }
        if node[p].r == v {
          return p;
        }
        v := p;
      }
    }

    static lemma NotListed(t: Tree, v: nat)
      requires v !in In(t)
      ensures forall a, b :: In(t) != a + [v] + b
    {
      forall a, b
        ensures In(t) != a + [v] + b
      {
        assert (a + [v] + b)[|a|] == v;
      }
    }

    static lemma PredBelow(t: Tree, v: nat, u: nat)
      requires v in In(t) && Distinct(In(t)) && Sub(t, v).l.Fork? && u == Last(Sub(t, v).l)
      ensures forall a, b :: In(t) == a + [v] + b ==> u == LastOr(a, NULL)
    {
      InLast(Sub(t, v).l);
      forall a, b | In(t) == a + [v] + b
        ensures u == LastOr(a, NULL)
      {
        Neighbours(t, v, a, b);
      }
    }

    static lemma PredAbove(t: Tree, v: nat)
      requires v in In(t) && Distinct(In(t)) && Sub(t, v).l == Leaf
      ensures forall a, b :: In(t) == a + [v] + b ==> LastOr(Before(t, v), NULL) == LastOr(a, NULL)
    {
      forall a, b | In(t) == a + [v] + b
        ensures LastOr(Before(t, v), NULL) == LastOr(a, NULL)
      {
        Neighbours(t, v, a, b);
        assert Before(t, v) + [] == Before(t, v);
      }
    }

    /** One step up, for either direction. */
    static lemma UpFrom(ns: seq<Node>, t: Tree, root: nat, v: nat)
      requires Rep(ns, t, root, NULL) && Distinct(In(t)) && v in In(t) && v < |ns|
      ensures var p := ns[v].p;
              if p == NULL then Before(t, v) == [] && After(t, v) == []
              else
                && p in In(t) && p < |ns| && Depth(t, p) < Depth(t, v)
                && (ns[p].r == v ==> LastOr(Before(t, v), NULL) == p && FirstOr(After(t, v), NULL) == FirstOr(After(t, p), NULL))
                && (ns[p].r != v ==> ns[p].l == v && LastOr(Before(t, v), NULL) == LastOr(Before(t, p), NULL))
                && (ns[p].l == v ==> ns[p].r != v && FirstOr(After(t, v), NULL) == p)
    {
      if t.v == v {
        TopHasNone(t);
      } else {
        ParentStep(ns, t, root, NULL, v);
        LeftOrRight(ns, t, root, ns[v].p, v);
      }
    }

    /** No node is both children of another. */
    static lemma LeftOrRight(ns: seq<Node>, t: Tree, root: nat, p: nat, v: nat)
      requires Rep(ns, t, root, NULL) && Distinct(In(t)) && p in In(t) && p < |ns| && v in In(t)
      ensures !(ns[p].l == v && ns[p].r == v)
    {
      Surroundings(ns, t, root, p);
      var s := Sub(t, p);
      RootIn(ns, s.l, ns[p].l, p);
      RootIn(ns, s.r, ns[p].r, p);
      RootIn(ns, t, root, NULL);
    }

    /** The node after v in the order of words. */
    method Succ(v0: nat) returns (u: nat)
      requires TreeOk() && (v0 == NULL || v0 in In(tree))
      ensures v0 == NULL ==> u == NULL
      ensures forall a, b :: In(tree) == a + [v0] + b ==> u == FirstOr(b, NULL)
    {
      hide In, Distinct, Ordered, Rep, Sub, Before, After, Depth;
      RootIn(node[..], tree, root, NULL);
      if v0 == NULL {
        NotListed(tree, v0);
        return NULL;
      }
      Surroundings(node[..], tree, root, v0);
      ghost var s := Sub(tree, v0);
      u := Min(node[v0].r, s.r, v0);
      if u != NULL {
        SuccBelow(tree, v0, u);
        return;
      }
      ghost var target := FirstOr(After(tree, v0), NULL);
      SuccAbove(tree, v0);
      var v := v0;
      while true
        invariant v in In(tree) && v < node.Length && FirstOr(After(tree, v), NULL) == target
        decreases Depth(tree, v)
      {
        UpFrom(node[..], tree, root, v);
        var p := node[v].p;
        if p == NULL {
          return NULL;
        }
        if node[p].l == v {
          return p;
        }
        v := p;
      }
    }

    static lemma SuccBelow(t: Tree, v: nat, u: nat)
      requires v in In(t) && Distinct(In(t)) && Sub(t, v).r.Fork? && u == First(Sub(t, v).r)
      ensures forall a, b :: In(t) == a + [v] + b ==> u == FirstOr(b, NULL)
    {
      InFirst(Sub(t, v).r);
      forall a, b | In(t) == a + [v] + b
        ensures u == FirstOr(b, NULL)
      {
        Neighbours(t, v, a, b);
      }
    }

    static lemma SuccAbove(t: Tree, v: nat)
      requires v in In(t) && Distinct(In(t)) && Sub(t, v).r == Leaf
      ensures forall a, b :: In(t) == a + [v] + b ==> FirstOr(After(t, v), NULL) == FirstOr(b, NULL)
    {
      forall a, b | In(t) == a + [v] + b
        ensures FirstOr(After(t, v), NULL) == FirstOr(b, NULL)
      {
        Neighbours(t, v, a, b);
        assert [] + After(t, v) == After(t, v);
      }
    }

    // ----- writing -----

    /** The first word in the window: as many words as there are nodes, at most. */
    ghost function Oldest(): int
      reads this, node
    {
      if hoff + 1 >= node.Length then hoff + 1 - node.Length else 0
    }

    /**
     The tree holds exactly the nodes of the window, each with the four bytes at its position; the ring knows its front,
     and x the last bytes.
     */
    ghost predicate Valid()
      reads this, node
    {
      && TreeOk() && node.Length >= 1
      && hoff == |input| - WORD_LEN
      && front == (if hoff < 0 then 0 else RingPos(hoff + 1, node.Length))
      && x == Big(input[if hoff < 0 then 0 else hoff..])
      && (forall u: nat :: u in In(tree) <==> u < node.Length && (u <= hoff || hoff >= node.Length))
      && (forall pos: nat :: Oldest() <= pos <= hoff ==> node[RingPos(pos, node.Length)].x == Big(input[pos..pos + WORD_LEN]))
    }

    constructor (capacity: nat)
      requires 1 <= capacity < NULL
      ensures Valid() && input == [] && node.Length == capacity && fresh(node)
    {
      node := new Node[capacity](_ => Node(0, 0, 0, 0));
      root, hoff, front, x := NULL, -WORD_LEN, 0, 0;
      tree, input := Leaf, [];
    }

    static lemma {:induction false} RingApart(a: nat, b: nat, len: nat)
      requires len >= 1 && a < b < a + len
      ensures RingPos(a, len) != RingPos(b, len)
    {
      RingOffset(a, b - a, len);
    }

    static function Quad(a: nat, b: nat, c: nat, d: nat): nat { ((a * 256 + b) * 256 + c) * 256 + d }

    static lemma QuadShift(a: nat, b: nat, c: nat, d: nat, e: nat)
      requires a < 256 && b < 256 && c < 256 && d < 256 && e < 256
      ensures (Quad(a, b, c, d) * 256 + e) % TWO_WORDS == Quad(b, c, d, e)
    {
      assert Quad(a, b, c, d) * 256 + e == a * TWO_WORDS + Quad(b, c, d, e);
      assert 0 <= Quad(b, c, d, e) < TWO_WORDS;
    }

    static lemma BigFour(s: seq<Byte>)
      requires |s| == 4
      ensures Big(s) == Quad(s[0], s[1], s[2], s[3])
    {
      assert s[..0] == [] && s[..4] == s;
      BigPrefix(s, 0);
      BigPrefix(s, 1);
      BigPrefix(s, 2);
      BigPrefix(s, 3);
    }

    /** Shifting a byte in drops the oldest of four. */
    static lemma ShiftIn(input: seq<Byte>, c: Byte)
      ensures var n, n' := if |input| < 4 then 0 else |input| - 4, if |input| < 3 then 0 else |input| - 3;
              (Big(input[n..]) * 256 + c) % TWO_WORDS == Big((input + [c])[n'..])
    {
      if |input| < 4 {
        ShortShift(input, c);
      } else {
        var s := input[|input| - 4..];
        var s' := (input + [c])[|input| - 3..];
        assert s' == [s[1], s[2], s[3], c];
        BigFour(s);
        BigFour(s');
        QuadShift(s[0], s[1], s[2], s[3], c);
      }
    }

    static lemma ShortShift(input: seq<Byte>, c: Byte)
      requires |input| < 4
      ensures (Big(input[0..]) * 256 + c) % TWO_WORDS == Big((input + [c])[if |input| < 3 then 0 else |input| - 3..])
    {
      assert input[0..] == input && (input + [c])[0..] == input + [c];
      BigSnoc(input, c);
      BigBelow(input);
    }

    static lemma BigBelow(s: seq<Byte>)
      requires |s| < 4
      ensures Big(s) < 0x100_0000
    {
      assert s[..|s|] == s && s[..0] == [];
      if |s| >= 1 { BigPrefix(s, 0); }
      if |s| >= 2 { BigPrefix(s, 1); }
      if |s| >= 3 { BigPrefix(s, 2); }
    }

    /** Takes one more byte: the word that ends with it replaces the oldest one of a full ring. */
    method WriteByte(c: Byte)
      requires Valid()
      modifies this, node
      ensures Valid() && input == old(input) + [c]
    {
      hide In, Distinct, Ordered, Rep, Big, RingPos, InArena;
      ghost var input0 := input;
      ShiftIn(input, c);
      var x' := (x * 256 + c) % TWO_WORDS;
      assert x' == Big((input + [c])[if hoff + 1 < 0 then 0 else hoff + 1..]);
      if hoff + 1 < 0 {
        x, hoff, input := x', hoff + 1, input + [c];
        return;
      }
      Enter(x');
      x, hoff, input := x', hoff + 1, input + [c];
      assert input[hoff..] == input[hoff..hoff + WORD_LEN];
      forall pos: nat | Oldest() <= pos <= hoff
        ensures node[RingPos(pos, node.Length)].x == Big(input[pos..pos + WORD_LEN])
      {
        if pos < hoff { assert input[pos..pos + WORD_LEN] == input0[pos..pos + WORD_LEN]; }
      }
    }

    /** Puts a word into the front node, out of which the oldest word goes when the ring is full. */
    method Enter(w: nat)
      requires Valid() && hoff + 1 >= 0
      modifies this`root, this`tree, this`front, node
      ensures TreeOk() && hoff + 1 >= 0
      ensures front == RingPos(hoff + 2, node.Length)
      ensures forall u: nat :: u in In(tree) <==> u < node.Length && (u <= hoff + 1 || hoff + 1 >= node.Length)
      ensures node[RingPos(hoff + 1, node.Length)].x == w
      ensures forall pos: nat :: hoff + 1 - node.Length < pos <= hoff ==> node[RingPos(pos, node.Length)].x == Big(input[pos..pos + WORD_LEN])
    {
      hide In, Distinct, Ordered, Rep, Big, RingPos, InArena, Delete, Insert;
      RingFacts(hoff + 1, node.Length);
      var v := front;
      ghost var words := node[..];
      if v < hoff + 1 {
        Remove(v);
      }
      SetWord(v, w);
      Add(v);
      front := front + 1;
      if front >= node.Length {
        front := 0;
      }
      forall pos: nat | hoff + 1 - node.Length < pos <= hoff
        ensures node[RingPos(pos, node.Length)].x == Big(input[pos..pos + WORD_LEN])
      {
        RingApart(pos, hoff + 1, node.Length);
        assert words[RingPos(pos, node.Length)].x == Big(input[pos..pos + WORD_LEN]);
      }
    }

    /** Where the newest word goes, and the next one. */
    static lemma RingFacts(h: nat, len: nat)
      requires len >= 1
      ensures var v := RingPos(h, len);
              && (h < len ==> v == h)
              && RingPos(h + 1, len) == if v + 1 >= len then 0 else v + 1
    {
      RingOffset(h, 1, len);
    }

    /** Gives a node that is not in the tree another word. */
    method SetWord(v: nat, w: nat)
      requires TreeOk() && v < node.Length && v !in In(tree)
      modifies node
      ensures TreeOk() && node[v].x == w && forall u :: 0 <= u < node.Length && u != v ==> node[u] == old(node[u])
    {
      hide In, Distinct, Ordered, Rep;
      ghost var ns := node[..];
      node[v] := node[v].(x := w);
      RepFrame(ns, node[..], tree, root, NULL);
      OrderedFrame(ns, node[..], tree);
    }
  }
}
