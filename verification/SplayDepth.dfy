/**
  What the splay does to depths: it halves the path it searched.
 */
module SplayDepth {
  import opened Sequences
  import opened SplayShape

  /** The number of nodes that a search for `k` visits. */
  ghost function Steps(t: Tree, k: int): nat {
    if t.Leaf? then 0
    else 1 + if k < t.node.key then Steps(t.left, k) else if t.node.key < k then Steps(t.right, k) else 0
  }

  /** A search for `k` visits the node with key `j`. */
  ghost predicate OnPath(t: Tree, k: int, j: int) {
    t.Branch? &&
    (j == t.node.key || (k < t.node.key && OnPath(t.left, k, j)) || (t.node.key < k && OnPath(t.right, k, j)))
  }

  lemma PathStep(t: Tree, k: int, j: int)
    ensures t.Leaf? ==> Steps(t, k) == 0 && !OnPath(t, k, j)
    ensures t.Branch? && k < t.node.key ==>
      Steps(t, k) == 1 + Steps(t.left, k) && (OnPath(t, k, j) <==> j == t.node.key || OnPath(t.left, k, j))
    ensures t.Branch? && t.node.key < k ==>
      Steps(t, k) == 1 + Steps(t.right, k) && (OnPath(t, k, j) <==> j == t.node.key || OnPath(t.right, k, j))
    ensures t.Branch? && k == t.node.key ==> Steps(t, k) == 1 && (OnPath(t, k, j) <==> j == k)
  {
  }

  ghost function Length(c: Chain): nat {
    if c.End? then 0 else 1 + Length(c.outer)
  }

  /** A search in a closed left tree leaves its edge where its key belongs. */
  lemma {:induction false} LeftSteps(c: Chain, t: Tree, lo: int, j: int)
    requires LeftOrdered(c, lo)
    ensures Edge(c, lo) < j ==> Steps(LeftClosed(c, t), j) == Length(c) + Steps(t, j)
    ensures c.Link? && j <= Edge(c, lo) ==> Steps(LeftClosed(c, t), j) == Steps(LeftClosed(c, Leaf), j)
    decreases c
  {
    if c.End? {
    } else {
      LeftSteps(c.outer, Branch(c.side, c.node, t), lo, j);
      LeftSteps(c.outer, Branch(c.side, c.node, Leaf), lo, j);
    }
  }

  lemma {:induction false} RightSteps(c: Chain, t: Tree, hi: int, j: int)
    requires RightOrdered(c, hi)
    ensures j < Edge(c, hi) ==> Steps(RightClosed(c, t), j) == Length(c) + Steps(t, j)
    ensures c.Link? && Edge(c, hi) <= j ==> Steps(RightClosed(c, t), j) == Steps(RightClosed(c, Leaf), j)
    decreases c
  {
    if c.End? {
    } else {
      RightSteps(c.outer, Branch(t, c.node, c.side), hi, j);
      RightSteps(c.outer, Branch(Leaf, c.node, c.side), hi, j);
    }
  }

  ghost predicate InOrderPieces(p: Pieces, k: int) {
    && p.m.Branch? && LeftOrdered(p.l, p.lo) && RightOrdered(p.r, p.hi)
    && Ordered(p.m, Edge(p.l, p.lo), Edge(p.r, p.hi)) && Edge(p.l, p.lo) < k < Edge(p.r, p.hi)
  }

  /** With `v` of `n` path nodes behind, both edges are at most half as long; an edge may be
      one ahead just after a single step to its side, when the next step goes the other way. */
  ghost predicate Halved(p: Pieces, k: int, v: nat, n: nat)
    requires p.m.Branch?
  {
    && n == v + Steps(p.m, k)
    && 2 * Length(p.l) <= v + (if k <= p.m.node.key then 1 else 0)
    && 2 * Length(p.r) <= v + (if p.m.node.key <= k then 1 else 0)
  }

  /** The node with key `j` left the middle tree for a place of at most half the depth. */
  ghost predicate Settled(p: Pieces, j: int, n: nat) {
    || (p.l.Link? && j <= Edge(p.l, p.lo) && 2 * Steps(LeftClosed(p.l, Leaf), j) <= n + 2)
    || (p.r.Link? && Edge(p.r, p.hi) <= j && 2 * Steps(RightClosed(p.r, Leaf), j) <= n + 2)
  }

  /** Linking left: what was settled stays so. */
  lemma StaysSettledLeft(p: Pieces, k: int, j: int, n: nat)
    requires InOrderPieces(p, k) && Settled(p, j, n)
    ensures Settled(LinkedLeft(p), j, n)
  {
    RightSteps(p.r, Branch(Leaf, p.m.node, p.m.right), p.hi, j);
  }

  /** Linking left: where the root goes, and the node a rotation put below it. */
  lemma NewlySettledLeft(p: Pieces, k: int, n: nat)
    requires InOrderPieces(p, k) && p.m.left.Branch? && 2 * Length(p.r) <= n
    ensures Settled(LinkedLeft(p), p.m.node.key, n)
    ensures p.m.right.Branch? && 2 * Length(p.r) + 2 <= n ==> Settled(LinkedLeft(p), p.m.right.node.key, n)
  {
    RightSteps(p.r, Branch(Leaf, p.m.node, p.m.right), p.hi, p.m.node.key);
    if p.m.right.Branch? {
      RightSteps(p.r, Branch(Leaf, p.m.node, p.m.right), p.hi, p.m.right.node.key);
    }
  }

  lemma OrderedLinkedLeft(p: Pieces, k: int)
    requires InOrderPieces(p, k) && p.m.left.Branch? && k < p.m.node.key
    ensures InOrderPieces(LinkedLeft(p), k)
  {
  }

  lemma OrderedRotatedRight(p: Pieces, k: int)
    requires InOrderPieces(p, k) && p.m.left.Branch?
    ensures InOrderPieces(p.(m := RightRotated(p.m)), k)
  {
    LeftRotatedOrdered(RightRotated(p.m), Edge(p.l, p.lo), Edge(p.r, p.hi));
  }

  lemma StaysSettledRight(p: Pieces, k: int, j: int, n: nat)
    requires InOrderPieces(p, k) && Settled(p, j, n)
    ensures Settled(LinkedRight(p), j, n)
  {
    LeftSteps(p.l, Branch(p.m.left, p.m.node, Leaf), p.lo, j);
  }

  lemma NewlySettledRight(p: Pieces, k: int, n: nat)
    requires InOrderPieces(p, k) && p.m.right.Branch? && 2 * Length(p.l) <= n
    ensures Settled(LinkedRight(p), p.m.node.key, n)
    ensures p.m.left.Branch? && 2 * Length(p.l) + 2 <= n ==> Settled(LinkedRight(p), p.m.left.node.key, n)
  {
    LeftSteps(p.l, Branch(p.m.left, p.m.node, Leaf), p.lo, p.m.node.key);
    if p.m.left.Branch? {
      LeftSteps(p.l, Branch(p.m.left, p.m.node, Leaf), p.lo, p.m.left.node.key);
    }
  }

  lemma OrderedLinkedRight(p: Pieces, k: int)
    requires InOrderPieces(p, k) && p.m.right.Branch? && p.m.node.key < k
    ensures InOrderPieces(LinkedRight(p), k)
  {
  }

  lemma OrderedRotatedLeft(p: Pieces, k: int)
    requires InOrderPieces(p, k) && p.m.right.Branch?
    ensures InOrderPieces(p.(m := LeftRotated(p.m)), k)
  {
    LeftRotatedOrdered(p.m, Edge(p.l, p.lo), Edge(p.r, p.hi));
  }

  /** At the end: the settled nodes hang below the root, one step deeper. */
  lemma SettledAtEnd(p: Pieces, k: int, j: int, n: nat)
    requires InOrderPieces(p, k) && Settled(p, j, n)
    ensures 2 * Steps(Assembled(p), j) <= n + 4
  {
    LeftSteps(p.l, p.m.left, p.lo, j);
    RightSteps(p.r, p.m.right, p.hi, j);
  }

  /** At the end: the root, and a node that the last rotation put just below it. */
  lemma MiddleAtEnd(p: Pieces, k: int, n: nat)
    requires InOrderPieces(p, k)
    ensures Steps(Assembled(p), p.m.node.key) == 1
    ensures p.m.left.Branch? ==> Steps(Assembled(p), p.m.left.node.key) == 2 + Length(p.l)
    ensures p.m.right.Branch? ==> Steps(Assembled(p), p.m.right.node.key) == 2 + Length(p.r)
  {
    if p.m.left.Branch? { LeftSteps(p.l, p.m.left, p.lo, p.m.left.node.key); }
    if p.m.right.Branch? { RightSteps(p.r, p.m.right, p.hi, p.m.right.node.key); }
  }

  lemma {:induction false} SplayLoopHalves(p: Pieces, k: int, j: int, v: nat, n: nat)
    requires p.m.Branch? && InOrderPieces(p, k) && Halved(p, k, v, n)
    requires Settled(p, j, n) || OnPath(p.m, k, j)
    ensures 2 * Steps(Assembled(SplayLoop(p, k)), j) <= n + 4
    decreases p.m, 1
  {
    hide Settled, Ordered, LeftOrdered, RightOrdered, LeftClosed, RightClosed, Assembled, InOrderPieces;
    var m := p.m;
    if k < m.node.key && m.left.Branch? {
      HalvesLeft(p, k, j, v, n);
    } else if m.node.key < k && m.right.Branch? {
      HalvesRight(p, k, j, v, n);
    } else {
      MiddleAtEnd(p, k, n);
      if Settled(p, j, n) { SettledAtEnd(p, k, j, n); }
    }
  }

  lemma {:induction false} HalvesLeft(p: Pieces, k: int, j: int, v: nat, n: nat)
    requires p.m.Branch? && InOrderPieces(p, k) && Halved(p, k, v, n)
    requires Settled(p, j, n) || OnPath(p.m, k, j)
    requires k < p.m.node.key && p.m.left.Branch?
    ensures 2 * Steps(Assembled(SplayLoop(p, k)), j) <= n + 4
    decreases p.m, 0
  {
    hide Settled, Ordered, LeftOrdered, RightOrdered, LeftClosed, RightClosed, Assembled, InOrderPieces, Steps, OnPath;
    var m := p.m;
    PathStep(m, k, j);
    PathStep(m.left, k, j);
    PathStep(m.left.left, k, j);
    if m.left.node.key <= k {
      var q := LinkedLeft(p);
      OrderedLinkedLeft(p, k);
      NewlySettledLeft(p, k, n);
      if Settled(p, j, n) { StaysSettledLeft(p, k, j, n); }
      SplayLoopHalves(q, k, j, v + 1, n);
    } else {
      var q := p.(m := RightRotated(m));
      OrderedRotatedRight(p, k);
      if Settled(p, j, n) { StillSettled(p, q, j, n); }
      if q.m.left.Leaf? {
        assert SplayLoop(p, k) == q;
        MiddleAtEnd(q, k, n);
        if Settled(q, j, n) { SettledAtEnd(q, k, j, n); }
      } else {
        OrderedLinkedLeft(q, k);
        NewlySettledLeft(q, k, n);
        if Settled(q, j, n) { StaysSettledLeft(q, k, j, n); }
        SplayLoopHalves(LinkedLeft(q), k, j, v + 2, n);
      }
    }
  }

  lemma {:induction false} HalvesRight(p: Pieces, k: int, j: int, v: nat, n: nat)
    requires p.m.Branch? && InOrderPieces(p, k) && Halved(p, k, v, n)
    requires Settled(p, j, n) || OnPath(p.m, k, j)
    requires p.m.node.key < k && p.m.right.Branch?
    ensures 2 * Steps(Assembled(SplayLoop(p, k)), j) <= n + 4
    decreases p.m, 0
  {
    hide Settled, Ordered, LeftOrdered, RightOrdered, LeftClosed, RightClosed, Assembled, InOrderPieces, Steps, OnPath;
    var m := p.m;
    PathStep(m, k, j);
    PathStep(m.right, k, j);
    PathStep(m.right.right, k, j);
    if k <= m.right.node.key {
      var q := LinkedRight(p);
      OrderedLinkedRight(p, k);
      NewlySettledRight(p, k, n);
      if Settled(p, j, n) { StaysSettledRight(p, k, j, n); }
      SplayLoopHalves(q, k, j, v + 1, n);
    } else {
      var q := p.(m := LeftRotated(m));
      OrderedRotatedLeft(p, k);
      if Settled(p, j, n) { StillSettled(p, q, j, n); }
      if q.m.right.Leaf? {
        assert SplayLoop(p, k) == q;
        MiddleAtEnd(q, k, n);
        if Settled(q, j, n) { SettledAtEnd(q, k, j, n); }
      } else {
        OrderedLinkedRight(q, k);
        NewlySettledRight(q, k, n);
        if Settled(q, j, n) { StaysSettledRight(q, k, j, n); }
        SplayLoopHalves(LinkedRight(q), k, j, v + 2, n);
      }
    }
  }

  lemma StillSettled(p: Pieces, q: Pieces, j: int, n: nat)
    requires Settled(p, j, n) && q.l == p.l && q.r == p.r && q.lo == p.lo && q.hi == p.hi
    ensures Settled(q, j, n)
  {
  }

  /** The splay halves the path it searched: every node on it ends at a depth of at most
      half the length of the path, plus two. */
  lemma SplayHalves(t: Tree, k: int, j: int)
    requires t.Branch? && Ascending(InOrder(t), Key) && OnPath(t, k, j)
    ensures 2 * Steps(Splayed(t, k), j) <= Steps(t, k) + 4
  {
    var lo, hi := Bounds(InOrder(t), k, Key);
    AscendingOrdered(t, lo, hi);
    var p := Pieces(End, t, End, 0, 0);
    SplayLoopBounds(p, k, lo, hi);
    SplayLoopHalves(Pieces(End, t, End, lo, hi), k, j, 0, Steps(t, k));
  }
}
