/**
  The shape of a splay tree, as a value, and the three pieces into which the top-down
  splay loop cuts it.
 */
module SplayShape {
  import opened Sequences

  /** One element, with the links that SPLAY_ENTRY embeds in it. */
  class Node {
    const key: int
    var left: Node?
    var right: Node?

    constructor (key: int)
      ensures this.key == key && left == null && right == null
    {
      this.key := key;
      left, right := null, null;
    }
  }

  ghost function Key(n: Node): int {
    n.key
  }

  datatype Tree = Leaf | Branch(left: Tree, node: Node, right: Tree)

  /** A tree under construction, given by its open edge: the nodes along the edge, the
      innermost first, each with the subtree that is already complete on its other side. */
  datatype Chain = End | Link(outer: Chain, node: Node, side: Tree)

  ghost function Root(t: Tree): Node? {
    if t.Leaf? then null else t.node
  }

  /** The node whose link is the open end of the chain; the header stands for the empty one. */
  ghost function Last(c: Chain, header: Node): Node {
    if c.End? then header else c.node
  }

  ghost function Nodes(t: Tree): (s: set<Node>)
    ensures t.Branch? ==> t.node in s
  {
    if t.Leaf? then {} else Nodes(t.left) + {t.node} + Nodes(t.right)
  }

  ghost function ChainNodes(c: Chain): (s: set<Node>)
    ensures c.Link? ==> c.node in s
  {
    if c.End? then {} else ChainNodes(c.outer) + {c.node} + Nodes(c.side)
  }

  ghost function InOrder(t: Tree): seq<Node> {
    if t.Leaf? then [] else InOrder(t.left) + [t.node] + InOrder(t.right)
  }

  // ---------- the left tree grows along its right edge, the right tree along its left ----------

  ghost function LeftOrder(c: Chain): seq<Node> {
    if c.End? then [] else LeftOrder(c.outer) + (InOrder(c.side) + [c.node])
  }

  ghost function RightOrder(c: Chain): seq<Node> {
    if c.End? then [] else [c.node] + InOrder(c.side) + RightOrder(c.outer)
  }

  /** The left tree, closed with `t` at its open end. */
  ghost function LeftClosed(c: Chain, t: Tree): Tree
    decreases c
  {
    if c.End? then t else LeftClosed(c.outer, Branch(c.side, c.node, t))
  }

  ghost function RightClosed(c: Chain, t: Tree): Tree
    decreases c
  {
    if c.End? then t else RightClosed(c.outer, Branch(t, c.node, c.side))
  }

  lemma {:induction false} LeftClosedOrder(c: Chain, t: Tree)
    ensures InOrder(LeftClosed(c, t)) == LeftOrder(c) + InOrder(t)
    decreases c
  {
    if c.End? {
    } else {
      LeftClosedOrder(c.outer, Branch(c.side, c.node, t));
      Regroup(LeftOrder(c.outer), InOrder(c.side), c.node, InOrder(t), []);
    }
  }

  lemma {:induction false} RightClosedOrder(c: Chain, t: Tree)
    ensures InOrder(RightClosed(c, t)) == InOrder(t) + RightOrder(c)
    decreases c
  {
    if c.End? {
    } else {
      RightClosedOrder(c.outer, Branch(t, c.node, c.side));
      Regroup([], InOrder(t), c.node, InOrder(c.side), RightOrder(c.outer));
    }
  }

  lemma {:induction false} NodesInOrder(t: Tree)
    ensures forall n :: n in Nodes(t) <==> n in InOrder(t)
  {
    if t.Leaf? {
    } else {
      NodesInOrder(t.left);
      NodesInOrder(t.right);
    }
  }

  // ---------- search order ----------

  ghost predicate Ordered(t: Tree, lo: int, hi: int)
    ensures Ordered(t, lo, hi) ==> forall n <- Nodes(t) :: lo < n.key < hi
  {
    t.Leaf? || (lo < t.node.key < hi && Ordered(t.left, lo, t.node.key) && Ordered(t.right, t.node.key, hi))
  }

  /** The innermost key of a chain, beyond which the middle tree lies. */
  ghost function Edge(c: Chain, bound: int): int {
    if c.End? then bound else c.node.key
  }

  ghost predicate LeftOrdered(c: Chain, lo: int)
    ensures LeftOrdered(c, lo) ==> lo <= Edge(c, lo) && forall n <- ChainNodes(c) :: lo < n.key <= Edge(c, lo)
  {
    c.Link? ==>
      && LeftOrdered(c.outer, lo) && Edge(c.outer, lo) < c.node.key
      && Ordered(c.side, Edge(c.outer, lo), c.node.key)
  }

  ghost predicate RightOrdered(c: Chain, hi: int)
    ensures RightOrdered(c, hi) ==> Edge(c, hi) <= hi && forall n <- ChainNodes(c) :: Edge(c, hi) <= n.key < hi
  {
    c.Link? ==>
      && RightOrdered(c.outer, hi) && c.node.key < Edge(c.outer, hi)
      && Ordered(c.side, c.node.key, Edge(c.outer, hi))
  }

  lemma {:induction false} OrderedAscending(t: Tree, lo: int, hi: int)
    requires Ordered(t, lo, hi)
    ensures Ascending(InOrder(t), Key)
    ensures forall n <- InOrder(t) :: lo < n.key < hi
  {
    if t.Leaf? {
    } else {
      OrderedAscending(t.left, lo, t.node.key);
      OrderedAscending(t.right, t.node.key, hi);
    }
  }

  lemma {:induction false} AscendingOrdered(t: Tree, lo: int, hi: int)
    requires Ascending(InOrder(t), Key)
    requires forall n <- InOrder(t) :: lo < n.key < hi
    ensures Ordered(t, lo, hi)
  {
    if t.Leaf? {
    } else {
      AscendingParts(InOrder(t.left), t.node, InOrder(t.right), Key);
      AscendingOrdered(t.left, lo, t.node.key);
      AscendingOrdered(t.right, t.node.key, hi);
    }
  }

  lemma {:induction false} LeftClosedOrdered(c: Chain, t: Tree, lo: int, hi: int)
    requires LeftOrdered(c, lo) && Ordered(t, Edge(c, lo), hi) && Edge(c, lo) < hi
    ensures Ordered(LeftClosed(c, t), lo, hi)
    decreases c
  {
    if c.End? {
    } else {
      LeftClosedOrdered(c.outer, Branch(c.side, c.node, t), lo, hi);
    }
  }

  lemma {:induction false} RightClosedOrdered(c: Chain, t: Tree, lo: int, hi: int)
    requires RightOrdered(c, hi) && Ordered(t, lo, Edge(c, hi)) && lo < Edge(c, hi)
    ensures Ordered(RightClosed(c, t), lo, hi)
    decreases c
  {
    if c.End? {
    } else {
      RightClosedOrdered(c.outer, Branch(t, c.node, c.side), lo, hi);
    }
  }

  lemma {:induction false} LeftClosedNodes(c: Chain, t: Tree)
    ensures Nodes(LeftClosed(c, t)) == ChainNodes(c) + Nodes(t)
    decreases c
  {
    if c.End? {
    } else {
      LeftClosedNodes(c.outer, Branch(c.side, c.node, t));
    }
  }

  lemma {:induction false} RightClosedNodes(c: Chain, t: Tree)
    ensures Nodes(RightClosed(c, t)) == ChainNodes(c) + Nodes(t)
    decreases c
  {
    if c.End? {
    } else {
      RightClosedNodes(c.outer, Branch(t, c.node, c.side));
    }
  }

  // ---------- the three pieces of the splay loop ----------

  datatype Pieces = Pieces(l: Chain, m: Tree, r: Chain, lo: int, hi: int)

  /** The pieces hold the tree: in order, with these contents, all of them in `repr`. */
  ghost predicate Holds(p: Pieces, contents: seq<Node>, repr: set<Node>) {
    && p.m.Branch?
    && ChainNodes(p.l) <= repr && Nodes(p.m) <= repr && ChainNodes(p.r) <= repr
    && LeftOrdered(p.l, p.lo) && RightOrdered(p.r, p.hi) && Ordered(p.m, Edge(p.l, p.lo), Edge(p.r, p.hi))
    && LeftOrder(p.l) + InOrder(p.m) + RightOrder(p.r) == contents
  }

  /** SPLAY_ROTATE_RIGHT on the middle tree. */
  ghost function RightRotated(t: Tree): Tree
    requires t.Branch? && t.left.Branch?
  {
    Branch(t.left.left, t.left.node, Branch(t.left.right, t.node, t.right))
  }

  ghost function LeftRotated(t: Tree): Tree
    requires t.Branch? && t.right.Branch?
  {
    Branch(Branch(t.left, t.node, t.right.left), t.right.node, t.right.right)
  }

  lemma LeftRotatedOrder(t: Tree)
    requires t.Branch? && t.right.Branch?
    ensures InOrder(LeftRotated(t)) == InOrder(t)
  {
    var a, b, c := InOrder(t.left), InOrder(t.right.left), InOrder(t.right.right);
    assert InOrder(t.right) == b + [t.right.node] + c;
    assert a + [t.node] + (b + [t.right.node] + c) == a + [t.node] + b + [t.right.node] + c;
  }

  lemma LeftRotatedNodes(t: Tree)
    requires t.Branch? && t.right.Branch?
    ensures Nodes(LeftRotated(t)) == Nodes(t)
  {
    var u := LeftRotated(t);
    assert Nodes(t.right) == Nodes(t.right.left) + {t.right.node} + Nodes(t.right.right);
    assert Nodes(u.left) == Nodes(t.left) + {t.node} + Nodes(t.right.left);
  }

  lemma OrderedStep(l: Tree, n: Node, r: Tree, lo: int, hi: int)
    ensures Ordered(Branch(l, n, r), lo, hi) <==> lo < n.key < hi && Ordered(l, lo, n.key) && Ordered(r, n.key, hi)
  {
  }

  lemma LeftRotatedOrdered(t: Tree, lo: int, hi: int)
    requires t.Branch? && t.right.Branch?
    ensures Ordered(t, lo, hi) <==> Ordered(LeftRotated(t), lo, hi)
  {
    hide Ordered;
    var u := t.right;
    OrderedStep(t.left, t.node, u, lo, hi);
    OrderedStep(u.left, u.node, u.right, t.node.key, hi);
    OrderedStep(t.left, t.node, u.left, lo, u.node.key);
    OrderedStep(LeftRotated(t).left, u.node, u.right, lo, hi);
  }

  /** Rotating the middle tree, in either direction, moves no node in the order. */
  lemma HoldsRotated(p: Pieces, t: Tree, contents: seq<Node>, repr: set<Node>)
    requires t.Branch? && t.right.Branch?
    ensures Holds(p.(m := t), contents, repr) <==> Holds(p.(m := LeftRotated(t)), contents, repr)
    ensures RightRotated(LeftRotated(t)) == t
  {
    hide Ordered, InOrder, Nodes, LeftOrdered, RightOrdered, LeftOrder, RightOrder, ChainNodes;
    LeftRotatedOrder(t);
    LeftRotatedNodes(t);
    LeftRotatedOrdered(t, Edge(p.l, p.lo), Edge(p.r, p.hi));
  }

  /** SPLAY_LINKLEFT: the middle root and its right subtree go to the right tree. */
  ghost function LinkedLeft(p: Pieces): Pieces
    requires p.m.Branch?
  {
    p.(m := p.m.left, r := Link(p.r, p.m.node, p.m.right))
  }

  /** SPLAY_LINKRIGHT: the middle root and its left subtree go to the left tree. */
  ghost function LinkedRight(p: Pieces): Pieces
    requires p.m.Branch?
  {
    p.(m := p.m.right, l := Link(p.l, p.m.node, p.m.left))
  }

  lemma HoldsLinkedLeft(p: Pieces, contents: seq<Node>, repr: set<Node>)
    requires Holds(p, contents, repr) && p.m.left.Branch?
    ensures Holds(LinkedLeft(p), contents, repr)
  {
    var q := LinkedLeft(p);
    assert Nodes(p.m) == Nodes(p.m.left) + {p.m.node} + Nodes(p.m.right);
    assert ChainNodes(q.r) == ChainNodes(p.r) + {p.m.node} + Nodes(p.m.right);
    Regroup(LeftOrder(p.l), InOrder(p.m.left), p.m.node, InOrder(p.m.right), RightOrder(p.r));
  }

  lemma HoldsLinkedRight(p: Pieces, contents: seq<Node>, repr: set<Node>)
    requires Holds(p, contents, repr) && p.m.right.Branch?
    ensures Holds(LinkedRight(p), contents, repr)
  {
    var q := LinkedRight(p);
    assert Nodes(p.m) == Nodes(p.m.left) + {p.m.node} + Nodes(p.m.right);
    assert ChainNodes(q.l) == ChainNodes(p.l) + {p.m.node} + Nodes(p.m.left);
    Regroup(LeftOrder(p.l), InOrder(p.m.left), p.m.node, InOrder(p.m.right), RightOrder(p.r));
  }

  /** SPLAY_ASSEMBLE: the middle root on top of the two closed trees. */
  ghost function Assembled(p: Pieces): Tree
    requires p.m.Branch?
  {
    Branch(LeftClosed(p.l, p.m.left), p.m.node, RightClosed(p.r, p.m.right))
  }

  lemma HoldsAssembled(p: Pieces, contents: seq<Node>, repr: set<Node>)
    requires Holds(p, contents, repr)
    ensures InOrder(Assembled(p)) == contents && Nodes(Assembled(p)) <= repr
    ensures Ordered(Assembled(p), p.lo, p.hi)
  {
    hide LeftOrder, RightOrder, LeftClosed, RightClosed, ChainNodes, LeftOrdered, RightOrdered;
    var m := p.m;
    LeftClosedOrder(p.l, m.left);
    RightClosedOrder(p.r, m.right);
    LeftClosedNodes(p.l, m.left);
    RightClosedNodes(p.r, m.right);
    LeftClosedOrdered(p.l, m.left, p.lo, m.node.key);
    RightClosedOrdered(p.r, m.right, m.node.key, p.hi);
    Regroup(LeftOrder(p.l), InOrder(m.left), m.node, InOrder(m.right), RightOrder(p.r));
  }

  // ---------- the whole splay, on shapes ----------

  /** The splay loop for the key `k`, from the pieces `p` on. */
  ghost function SplayLoop(p: Pieces, k: int): (q: Pieces)
    requires p.m.Branch?
    ensures q.m.Branch?
    decreases p.m
  {
    var m := p.m;
    if k < m.node.key then
      if m.left.Leaf? then p
      else if k < m.left.node.key then
        var q := p.(m := RightRotated(m));
        if q.m.left.Leaf? then q else SplayLoop(LinkedLeft(q), k)
      else SplayLoop(LinkedLeft(p), k)
    else if m.node.key < k then
      if m.right.Leaf? then p
      else if m.right.node.key < k then
        var q := p.(m := LeftRotated(m));
        if q.m.right.Leaf? then q else SplayLoop(LinkedRight(q), k)
      else SplayLoop(LinkedRight(p), k)
    else p
  }

  /** One round of the loop. */
  lemma SplayLoopStep(p: Pieces, k: int)
    requires p.m.Branch?
    ensures
      var m := p.m;
      k < m.node.key && m.left.Branch? ==>
        if k >= m.left.node.key then SplayLoop(p, k) == SplayLoop(LinkedLeft(p), k)
        else
          var q := p.(m := RightRotated(m));
          SplayLoop(p, k) == if q.m.left.Leaf? then SplayLoop(q, k) else SplayLoop(LinkedLeft(q), k)
    ensures
      var m := p.m;
      m.node.key < k && m.right.Branch? ==>
        if m.right.node.key >= k then SplayLoop(p, k) == SplayLoop(LinkedRight(p), k)
        else
          var q := p.(m := LeftRotated(m));
          SplayLoop(p, k) == if q.m.right.Leaf? then SplayLoop(q, k) else SplayLoop(LinkedRight(q), k)
    ensures
      (k < p.m.node.key ==> p.m.left.Leaf?) && (p.m.node.key < k ==> p.m.right.Leaf?) ==> SplayLoop(p, k) == p
  {
  }

  /** The tree after a splay for the key `k`. */
  ghost function Splayed(t: Tree, k: int): Tree
    requires t.Branch?
  {
    Assembled(SplayLoop(Pieces(End, t, End, 0, 0), k))
  }

  lemma {:induction false} SplayLoopBounds(p: Pieces, k: int, lo: int, hi: int)
    requires p.m.Branch?
    ensures SplayLoop(p.(lo := lo, hi := hi), k) == SplayLoop(p, k).(lo := lo, hi := hi)
    decreases p.m
  {
    var m := p.m;
    if k < m.node.key && m.left.Branch? {
      if k >= m.left.node.key {
        SplayLoopBounds(LinkedLeft(p), k, lo, hi);
      } else if m.left.left.Branch? {
        SplayLoopBounds(LinkedLeft(p.(m := RightRotated(m))), k, lo, hi);
      }
    } else if m.node.key < k && m.right.Branch? {
      if m.right.node.key >= k {
        SplayLoopBounds(LinkedRight(p), k, lo, hi);
      } else if m.right.right.Branch? {
        SplayLoopBounds(LinkedRight(p.(m := LeftRotated(m))), k, lo, hi);
      }
    }
  }

  /** The bounds that the pieces carry play no part in the splay. */
  lemma SplayedWithin(t: Tree, k: int, lo: int, hi: int)
    requires t.Branch?
    ensures Assembled(SplayLoop(Pieces(End, t, End, lo, hi), k)) == Splayed(t, k)
  {
    SplayLoopBounds(Pieces(End, t, End, 0, 0), k, lo, hi);
  }

  // ---------- insertion and removal at the root ----------

  /** The nodes of a tree in order are apart: the root is in neither subtree. */
  lemma RootApart(t: Tree)
    requires t.Branch? && Ascending(InOrder(t), Key)
    ensures t.node !in Nodes(t.left) && t.node !in Nodes(t.right) && Nodes(t.left) !! Nodes(t.right)
    ensures Ascending(InOrder(t.left), Key) && Ascending(InOrder(t.right), Key)
    ensures forall n <- InOrder(t.left) :: n.key < t.node.key
    ensures forall n <- InOrder(t.right) :: t.node.key < n.key
  {
    hide Nodes, Ascending, Ordered;
    AscendingParts(InOrder(t.left), t.node, InOrder(t.right), Key);
    var lo, hi := Bounds(InOrder(t), 0, Key);
    AscendingOrdered(t, lo, hi);
    OrderedStep(t.left, t.node, t.right, lo, hi);
  }

  /** The root follows the new key: the new root takes over the left subtree. */
  ghost function SplitBefore(t: Tree, n: Node): Tree
    requires t.Branch?
  {
    Branch(t.left, n, Branch(Leaf, t.node, t.right))
  }

  ghost function SplitAfter(t: Tree, n: Node): Tree
    requires t.Branch?
  {
    Branch(Branch(t.left, t.node, Leaf), n, t.right)
  }

  lemma SplitOrder(t: Tree, n: Node)
    requires t.Branch?
    ensures InOrder(SplitBefore(t, n)) == InOrder(t.left) + [n] + ([t.node] + InOrder(t.right))
    ensures InOrder(SplitAfter(t, n)) == (InOrder(t.left) + [t.node]) + [n] + InOrder(t.right)
    ensures InOrder(t) == InOrder(t.left) + ([t.node] + InOrder(t.right))
    ensures InOrder(t) == (InOrder(t.left) + [t.node]) + InOrder(t.right)
  {
    hide Nodes;
    var a, m, b := InOrder(t.left), t.node, InOrder(t.right);
    Pairing(a, m, b);
    Pairing([], m, b);
    Pairing(a, m, []);
    assert InOrder(Branch(Leaf, m, t.right)) == [m] + b;
    assert InOrder(Branch(t.left, m, Leaf)) == a + [m];
  }

  lemma SplitNodes(t: Tree, n: Node)
    requires t.Branch?
    ensures Nodes(SplitBefore(t, n)) == Nodes(t) + {n}
    ensures Nodes(SplitAfter(t, n)) == Nodes(t) + {n}
  {
    assert Nodes(Branch(Leaf, t.node, t.right)) == {t.node} + Nodes(t.right);
    assert Nodes(Branch(t.left, t.node, Leaf)) == Nodes(t.left) + {t.node};
  }

  lemma SplitBeforeSorted(t: Tree, n: Node)
    requires t.Branch? && Ascending(InOrder(t), Key) && n.key < t.node.key
    requires forall m <- InOrder(t.left) :: m.key < n.key
    ensures Ascending(InOrder(SplitBefore(t, n)), Key) && Inserted(InOrder(t), n, InOrder(SplitBefore(t, n)))
  {
    hide Ascending, Inserted, InOrder, Nodes;
    RootApart(t);
    SplitOrder(t, n);
    var a, b := InOrder(t.left), [t.node] + InOrder(t.right);
    SortedCons(t.node, InOrder(t.right));
    AscendingJoin(a, n, b, Key);
    InsertedBetween(a, n, b);
  }

  lemma SplitAfterSorted(t: Tree, n: Node)
    requires t.Branch? && Ascending(InOrder(t), Key) && t.node.key < n.key
    requires forall m <- InOrder(t.right) :: n.key < m.key
    ensures Ascending(InOrder(SplitAfter(t, n)), Key) && Inserted(InOrder(t), n, InOrder(SplitAfter(t, n)))
  {
    hide Ascending, Inserted, InOrder, Nodes;
    RootApart(t);
    SplitOrder(t, n);
    var a, b := InOrder(t.left) + [t.node], InOrder(t.right);
    SortedSnoc(InOrder(t.left), t.node);
    AscendingJoin(a, n, b, Key);
    InsertedBetween(a, n, b);
  }

  lemma SortedCons(n: Node, b: seq<Node>)
    requires Ascending(b, Key) && forall m <- b :: n.key < m.key
    ensures Ascending([n] + b, Key)
  {
    assert [] + [n] + b == [n] + b;
    AscendingJoin([], n, b, Key);
  }

  lemma SortedSnoc(a: seq<Node>, n: Node)
    requires Ascending(a, Key) && forall m <- a :: m.key < n.key
    ensures Ascending(a + [n], Key)
  {
    assert a + [n] + [] == a + [n];
    AscendingJoin(a, n, [], Key);
  }

  /** Without the root, the two subtrees in a row are still in order. */
  lemma RootRemoved(t: Tree)
    requires t.Branch? && Ascending(InOrder(t), Key)
    ensures Inserted(InOrder(t.left) + InOrder(t.right), t.node, InOrder(t))
    ensures Ascending(InOrder(t.left) + InOrder(t.right), Key)
  {
    RootApart(t);
    InsertedBetween(InOrder(t.left), t.node, InOrder(t.right));
  }

  lemma RightInside(t: Tree)
    requires t.Branch?
    ensures forall n <- InOrder(t.right) :: n in InOrder(t)
    ensures t.right.Branch? ==> t.right.node in InOrder(t.right)
  {
  }

  /** After splaying the left part for a key above all of it, its root has no right child,
      and the right part goes there. */
  lemma Rejoined(t: Tree, r: Tree, s: seq<Node>)
    requires t.Branch? && t.right.Leaf? && InOrder(t) == s
    ensures InOrder(t.(right := r)) == s + InOrder(r)
    ensures Nodes(t.(right := r)) == Nodes(t) + Nodes(r)
  {
    assert InOrder(t) == InOrder(t.left) + [t.node];
  }
}
