/**
  The splay tree operations, on nodes in the heap.

  Inside the splay loop the tree is cut into the pieces `p`: a left tree, a middle tree and
  a right tree. `Cut` says that the heap holds them. Recursive definitions are hidden where
  only their step lemmas are needed.
 */
module SplayTrees {
  import opened Sequences
  import opened SplayBalance
  import opened SplayDepth
  import opened SplayShape
  import opened SplayWeight

  /** The links in the heap are those of `t`. */
  ghost predicate Linked(t: Tree)
    reads Nodes(t)
  {
    t.Branch? ==>
      && t.node.left == Root(t.left) && t.node.right == Root(t.right)
      && Linked(t.left) && Linked(t.right)
  }

  /** The links in the heap are those of a left tree that starts at `header.right`; the
      link at its open end may hold anything. */
  ghost predicate LeftLinked(c: Chain, header: Node)
    reads header`right, ChainNodes(c)
  {
    c.Link? ==>
      && c.node.left == Root(c.side) && Linked(c.side)
      && Last(c.outer, header).right == c.node && LeftLinked(c.outer, header)
  }

  /** The links in the heap are those of a right tree that starts at `header.left`. */
  ghost predicate RightLinked(c: Chain, header: Node)
    reads header`left, ChainNodes(c)
  {
    c.Link? ==>
      && c.node.right == Root(c.side) && Linked(c.side)
      && Last(c.outer, header).left == c.node && RightLinked(c.outer, header)
  }

  lemma LinkedStep(l: Tree, n: Node, r: Tree)
    ensures Linked(Branch(l, n, r)) <==> n.left == Root(l) && n.right == Root(r) && Linked(l) && Linked(r)
  {
  }

  lemma LeftLinkedStep(outer: Chain, n: Node, side: Tree, header: Node)
    ensures LeftLinked(Link(outer, n, side), header) <==>
      n.left == Root(side) && Linked(side) && Last(outer, header).right == n && LeftLinked(outer, header)
  {
  }

  lemma RightLinkedStep(outer: Chain, n: Node, side: Tree, header: Node)
    ensures RightLinked(Link(outer, n, side), header) <==>
      n.right == Root(side) && Linked(side) && Last(outer, header).left == n && RightLinked(outer, header)
  {
  }

  /** Closing the open end of a left tree in the heap. */
  lemma {:induction false} LeftCloses(c: Chain, t: Tree, header: Node)
    requires LeftLinked(c, header) && Linked(t) && Last(c, header).right == Root(t)
    ensures Linked(LeftClosed(c, t)) && header.right == Root(LeftClosed(c, t))
    decreases c
  {
    if c.End? {
    } else {
      LeftCloses(c.outer, Branch(c.side, c.node, t), header);
    }
  }

  lemma {:induction false} RightCloses(c: Chain, t: Tree, header: Node)
    requires RightLinked(c, header) && Linked(t) && Last(c, header).left == Root(t)
    ensures Linked(RightClosed(c, t)) && header.left == Root(RightClosed(c, t))
    decreases c
  {
    if c.End? {
    } else {
      RightCloses(c.outer, Branch(t, c.node, c.side), header);
    }
  }

  /** The comparison the tree is generated with: its sign orders the keys. */
  function Cmp(a: Node, b: Node): int {
    if a.key < b.key then -1 else if a.key > b.key then 1 else 0
  }

  /** The head of a tree. */
  class SplayTree {
    var root: Node?
    ghost var shape: Tree
    ghost var contents: seq<Node>
    ghost var repr: set<Node>

    ghost predicate Valid()
      reads this, repr
    {
      && repr == Nodes(shape) && contents == InOrder(shape) && Ascending(contents, Key)
      && root == Root(shape) && Linked(shape)
    }

    constructor ()
      ensures Valid() && contents == [] && repr == {}
    {
      root := null;
      shape, contents, repr := Leaf, [], {};
    }

    /** The heap holds the pieces of the splay loop, with the hooks `left` and `right`. */
    ghost predicate Cut(p: Pieces, header: Node, left: Node, right: Node)
      reads `root, `contents, `repr, repr, header
    {
      && Holds(p, contents, repr) && header !in repr
      && left == Last(p.l, header) && right == Last(p.r, header)
      && root == Root(p.m) && Linked(p.m)
      && LeftLinked(p.l, header) && RightLinked(p.r, header)
    }

    /** Writes the link at the open end of the left tree. */
    method HookLeft(left: Node, x: Node?, ghost c: Chain, ghost header: Node, ghost lo: int)
      requires LeftOrdered(c, lo) && LeftLinked(c, header) && left == Last(c, header) && header !in ChainNodes(c)
      modifies left`right
      ensures LeftLinked(c, header) && Last(c, header).right == x
    {
      left.right := x;
    }

    /** Writes the link at the open end of the right tree. */
    method HookRight(right: Node, x: Node?, ghost c: Chain, ghost header: Node, ghost hi: int)
      requires RightOrdered(c, hi) && RightLinked(c, header) && right == Last(c, header) && header !in ChainNodes(c)
      modifies right`left
      ensures RightLinked(c, header) && Last(c, header).left == x
    {
      right.left := x;
    }

    /** SPLAY_ROTATE_RIGHT: `tmp` is the left child of the root. */
    method RotateRight(tmp: Node, ghost m: Tree, ghost lo: int, ghost hi: int)
      requires m.Branch? && m.left.Branch? && root == m.node && tmp == m.left.node
      requires Linked(m) && Ordered(m, lo, hi)
      modifies `root, m.node`left, tmp`right
      ensures Linked(RightRotated(m)) && root == tmp
    {
      hide Linked, Ordered, Nodes;
      ghost var u := m.left;
      LinkedStep(u, m.node, m.right);
      LinkedStep(u.left, u.node, u.right);
      OrderedStep(u, m.node, m.right, lo, hi);
      OrderedStep(u.left, u.node, u.right, lo, m.node.key);
      root.left := tmp.right;
      tmp.right := root;
      root := tmp;
      LinkedStep(u.right, m.node, m.right);
      LinkedStep(u.left, u.node, RightRotated(m).right);
    }

    /** The rotation inside the loop: the two chains stay as they are. */
    method TurnRight(tmp: Node, ghost p: Pieces, ghost header: Node, ghost left: Node, ghost right: Node)
      requires Cut(p, header, left, right) && p.m.left.Branch? && tmp == p.m.left.node
      modifies `root, repr
      ensures Cut(p.(m := RightRotated(p.m)), header, left, right) && root == tmp
    {
      hide Linked, Ordered, Nodes, LeftLinked, RightLinked, LeftOrdered, RightOrdered, ChainNodes;
      hide InOrder, LeftOrder, RightOrder;
      HoldsRotated(p, RightRotated(p.m), contents, repr);
      PiecesApart(p);
      RotateRight(tmp, p.m, Edge(p.l, p.lo), Edge(p.r, p.hi));
    }

    /** SPLAY_ROTATE_LEFT: `tmp` is the right child of the root. */
    method RotateLeft(tmp: Node, ghost m: Tree, ghost lo: int, ghost hi: int)
      requires m.Branch? && m.right.Branch? && root == m.node && tmp == m.right.node
      requires Linked(m) && Ordered(m, lo, hi)
      modifies `root, m.node`right, tmp`left
      ensures Linked(LeftRotated(m)) && root == tmp
    {
      hide Linked, Ordered, Nodes;
      ghost var u := m.right;
      LinkedStep(m.left, m.node, u);
      LinkedStep(u.left, u.node, u.right);
      OrderedStep(m.left, m.node, u, lo, hi);
      OrderedStep(u.left, u.node, u.right, m.node.key, hi);
      root.right := tmp.left;
      tmp.left := root;
      root := tmp;
      LinkedStep(m.left, m.node, u.left);
      LinkedStep(LeftRotated(m).left, u.node, u.right);
    }

    /** The mirror image. */
    method TurnLeft(tmp: Node, ghost p: Pieces, ghost header: Node, ghost left: Node, ghost right: Node)
      requires Cut(p, header, left, right) && p.m.right.Branch? && tmp == p.m.right.node
      modifies `root, repr
      ensures Cut(p.(m := LeftRotated(p.m)), header, left, right) && root == tmp
    {
      hide Linked, Ordered, Nodes, RightLinked, LeftLinked, RightOrdered, LeftOrdered, ChainNodes;
      hide InOrder, RightOrder, LeftOrder;
      HoldsRotated(p, p.m, contents, repr);
      PiecesApart(p);
      RotateLeft(tmp, p.m, Edge(p.l, p.lo), Edge(p.r, p.hi));
    }

    /** The top two levels of the middle tree are in `repr` and in neither chain. */
    lemma PiecesApart(p: Pieces)
      requires Holds(p, contents, repr)
      ensures p.m.node in repr && p.m.node !in ChainNodes(p.l) && p.m.node !in ChainNodes(p.r)
      ensures p.m.left.Branch? ==>
        p.m.left.node in repr && p.m.left.node !in ChainNodes(p.l) && p.m.left.node !in ChainNodes(p.r)
      ensures p.m.right.Branch? ==>
        p.m.right.node in repr && p.m.right.node !in ChainNodes(p.l) && p.m.right.node !in ChainNodes(p.r)
      ensures Nodes(p.m.left) <= repr && Nodes(p.m.right) <= repr
    {
      hide LeftOrdered, RightOrdered, ChainNodes;
      hide InOrder, LeftOrder, RightOrder;
      assert Nodes(p.m) == Nodes(p.m.left) + {p.m.node} + Nodes(p.m.right);
    }

    /** SPLAY_LINKLEFT: the root goes to the open end of the right tree. */
    method LinkLeft(right0: Node, ghost p: Pieces, ghost header: Node, ghost left: Node) returns (right: Node)
      requires Cut(p, header, left, right0) && p.m.left.Branch?
      modifies `root, right0`left
      ensures Cut(LinkedLeft(p), header, left, right)
    {
      hide Linked, Ordered, Nodes, LeftLinked, RightLinked, LeftOrdered, RightOrdered, ChainNodes;
      hide InOrder, LeftOrder, RightOrder;
      HoldsLinkedLeft(p, contents, repr);
      LinkedStep(p.m.left, p.m.node, p.m.right);
      PiecesApart(p);
      HookRight(right0, root, p.r, header, p.hi);
      right := root;
      root := root.left;
      RightLinkedStep(p.r, p.m.node, p.m.right, header);
      LinkedStep(p.m.left, p.m.node, p.m.right);
    }

    /** SPLAY_LINKRIGHT: the root goes to the open end of the left tree. */
    method LinkRight(left0: Node, ghost p: Pieces, ghost header: Node, ghost right: Node) returns (left: Node)
      requires Cut(p, header, left0, right) && p.m.right.Branch?
      modifies `root, left0`right
      ensures Cut(LinkedRight(p), header, left, right)
    {
      hide Linked, Ordered, Nodes, RightLinked, LeftLinked, RightOrdered, LeftOrdered, ChainNodes;
      hide InOrder, RightOrder, LeftOrder;
      HoldsLinkedRight(p, contents, repr);
      LinkedStep(p.m.left, p.m.node, p.m.right);
      PiecesApart(p);
      HookLeft(left0, root, p.l, header, p.lo);
      left := root;
      root := root.right;
      LeftLinkedStep(p.l, p.m.node, p.m.left, header);
      LinkedStep(p.m.left, p.m.node, p.m.right);
    }

    /** SPLAY_ASSEMBLE */
    method Assemble(header: Node, left: Node, right: Node, ghost p: Pieces)
      requires Cut(p, header, left, right)
      modifies `root, `shape, `repr, repr, header
      ensures Valid() && shape == Assembled(p) && repr == set n | n in contents
    {
      hide Linked, Ordered, Nodes, LeftLinked, RightLinked, LeftOrdered, RightOrdered, ChainNodes;
      hide InOrder, LeftOrder, RightOrder, LeftClosed, RightClosed;
      ghost var a, b := LeftClosed(p.l, p.m.left), RightClosed(p.r, p.m.right);
      CloseEnds(header, left, right, p);
      HoldsAssembled(p, contents, repr);
      OrderedStep(a, p.m.node, b, p.lo, p.hi);
      NodesInOrder(Assembled(p));
      root.left := header.right;
      root.right := header.left;
      shape := Assembled(p);
      repr := Nodes(shape);
      LinkedStep(a, p.m.node, b);
      OrderedAscending(shape, p.lo, p.hi);
    }

    /** Closes both trees with the subtrees of the middle root. */
    method CloseEnds(header: Node, left: Node, right: Node, ghost p: Pieces)
      requires Cut(p, header, left, right)
      modifies left`right, right`left
      ensures Linked(LeftClosed(p.l, p.m.left)) && header.right == Root(LeftClosed(p.l, p.m.left))
      ensures Linked(RightClosed(p.r, p.m.right)) && header.left == Root(RightClosed(p.r, p.m.right))
    {
      hide Linked, Ordered, Nodes, LeftLinked, RightLinked, LeftOrdered, RightOrdered, ChainNodes;
      hide InOrder, LeftOrder, RightOrder, LeftClosed, RightClosed;
      LinkedStep(p.m.left, p.m.node, p.m.right);
      OrderedStep(p.m.left, p.m.node, p.m.right, Edge(p.l, p.lo), Edge(p.r, p.hi));
      PiecesApart(p);
      HookLeft(left, root.left, p.l, header, p.lo);
      HookRight(right, root.right, p.r, header, p.hi);
      LeftCloses(p.l, p.m.left, header);
      RightCloses(p.r, p.m.right, header);
    }

    /** The splay loop's search: everything left of the middle tree is below `k`,
        everything right of it above. */
    ghost predicate Narrowed(p: Pieces, k: int) {
      Edge(p.l, p.lo) < k < Edge(p.r, p.hi)
    }

    /** The root holds `k`, or stands next to where `k` would be. */
    ghost predicate Near(t: Tree, k: int) {
      && t.Branch?
      && (k < t.node.key ==> forall n <- InOrder(t.left) :: n.key < k)
      && (t.node.key < k ==> forall n <- InOrder(t.right) :: k < n.key)
    }

    lemma AssembledNear(p: Pieces, k: int)
      requires p.m.Branch? && Holds(p, contents, repr) && Narrowed(p, k)
      requires k < p.m.node.key ==> p.m.left.Leaf?
      requires p.m.node.key < k ==> p.m.right.Leaf?
      ensures Near(Assembled(p), k)
    {
      if k < p.m.node.key {
        LeftClosedOrdered(p.l, Leaf, p.lo, k);
        OrderedAscending(LeftClosed(p.l, Leaf), p.lo, k);
      }
      if p.m.node.key < k {
        RightClosedOrdered(p.r, Leaf, k, p.hi);
        OrderedAscending(RightClosed(p.r, Leaf), k, p.hi);
      }
    }

    /** Before the loop the middle tree is the whole tree. */
    lemma Uncut(k: int) returns (p: Pieces)
      requires Valid() && root != null
      ensures p.l == End && p.r == End && p.m == shape && p.lo < k < p.hi && Holds(p, contents, repr)
      ensures p.m.Branch? && root == Root(p.m) && Linked(p.m) && root in repr
    {
      var lo, hi := Bounds(contents, k, Key);
      AscendingOrdered(shape, lo, hi);
      p := Pieces(End, shape, End, lo, hi);
      assert [] + contents + [] == contents;
    }

    /** The loop can go no further. */
    ghost predicate AtEnd(p: Pieces, k: int)
      requires p.m.Branch?
    {
      (k < p.m.node.key ==> p.m.left.Leaf?) && (p.m.node.key < k ==> p.m.right.Leaf?)
    }

    /** One round of the loop for a key below that of the root. */
    method RoundLeft(elm: Node, right0: Node, ghost left: Node, ghost header: Node, ghost p0: Pieces)
      returns (done: bool, right: Node, ghost p: Pieces)
      requires Cut(p0, header, left, right0) && p0.m.Branch? && Narrowed(p0, elm.key) && elm.key < p0.m.node.key
      modifies `root, repr, header
      ensures Cut(p, header, left, right) && p.m.Branch? && Narrowed(p, elm.key)
      ensures Assembled(SplayLoop(p, elm.key)) == Assembled(SplayLoop(p0, elm.key))
      ensures if done then AtEnd(p, elm.key) else Steps(p.m, elm.key) < Steps(p0.m, elm.key)
    {
      hide Cut, Holds, SplayLoop, Assembled, Steps;
      done, right, p := false, right0, p0;
      CutLook(p, header, left, right);
      SplayLoopStep(p, elm.key);
      RoundSteps(p.m, elm.key);
      var tmp := root.left;
      if tmp == null {
        done := true;
        return;
      }
      if Cmp(elm, tmp) < 0 {
        TurnRight(tmp, p, header, left, right);
        p := p.(m := RightRotated(p.m));
        CutLook(p, header, left, right);
        SplayLoopStep(p, elm.key);
        if root.left == null {
          done := true;
          return;
        }
      }
      right := LinkLeft(right, p, header, left);
      p := LinkedLeft(p);
      CutLook(p, header, left, right);
    }

    /** One round of the loop for a key above that of the root. */
    method RoundRight(elm: Node, left0: Node, ghost right: Node, ghost header: Node, ghost p0: Pieces)
      returns (done: bool, left: Node, ghost p: Pieces)
      requires Cut(p0, header, left0, right) && p0.m.Branch? && Narrowed(p0, elm.key) && p0.m.node.key < elm.key
      modifies `root, repr, header
      ensures Cut(p, header, left, right) && p.m.Branch? && Narrowed(p, elm.key)
      ensures Assembled(SplayLoop(p, elm.key)) == Assembled(SplayLoop(p0, elm.key))
      ensures if done then AtEnd(p, elm.key) else Steps(p.m, elm.key) < Steps(p0.m, elm.key)
    {
      hide Cut, Holds, SplayLoop, Assembled, Steps;
      done, left, p := false, left0, p0;
      CutLook(p, header, left, right);
      SplayLoopStep(p, elm.key);
      RoundSteps(p.m, elm.key);
      var tmp := root.right;
      if tmp == null {
        done := true;
        return;
      }
      if Cmp(elm, tmp) > 0 {
        TurnLeft(tmp, p, header, left, right);
        p := p.(m := LeftRotated(p.m));
        CutLook(p, header, left, right);
        SplayLoopStep(p, elm.key);
        if root.right == null {
          done := true;
          return;
        }
      }
      left := LinkRight(left, p, header, right);
      p := LinkedRight(p);
      CutLook(p, header, left, right);
    }

    /** SPLAY: brings the element with the key of `elm`, or a neighbour of that key, to the root. */
    method Splay(elm: Node) returns (ghost steps: nat)
      requires Valid() && root != null
      modifies `root, `shape, `repr, repr
      ensures Valid() && Near(shape, elm.key) && repr == old(repr)
      ensures old(shape).Branch? && shape == Splayed(old(shape), elm.key)
      ensures steps <= Steps(old(shape), elm.key)
    {
      hide Cut, Valid, Near, Holds, SplayLoop, Splayed, Assembled, Steps, Narrowed;
      ReprIsContents();
      ghost var k := elm.key;
      ghost var p := Uncut(k);
      UncutNarrowed(p, k);
      SplayedWithin(shape, k, p.lo, p.hi);
      var header := new Node(0);
      var left, right, done := header, header, false;
      CutStart(p, header);
      CutLook(p, header, left, right);
      steps := 0;
      var comp := Cmp(elm, root);
      while comp != 0
        invariant Cut(p, header, left, right) && Narrowed(p, k) && repr == old(repr)
        invariant p.m.Branch? && root == p.m.node && root in repr
        invariant Assembled(SplayLoop(p, k)) == Splayed(old(shape), k)
        invariant comp == Cmp(elm, root)
        invariant steps + Steps(p.m, k) <= Steps(old(shape), k)
        decreases Steps(p.m, k)
      {
        RoundSteps(p.m, k);
        steps := steps + 1;
        if comp < 0 {
          done, right, p := RoundLeft(elm, right, left, header, p);
        } else if comp > 0 {
          done, left, p := RoundRight(elm, left, right, header, p);
        }
        CutLook(p, header, left, right);
        if done {
          break;
        }
        comp := Cmp(elm, root);
      }
      CutLook(p, header, left, right);
      SplayLoopStep(p, k);
      AssembledNear(p, k);
      Assemble(header, left, right, p);
    }

    lemma UncutNarrowed(p: Pieces, k: int)
      requires p.l == End && p.r == End && p.lo < k < p.hi
      ensures Narrowed(p, k)
    {
    }

    /** What the heap says about the top of the middle tree. */
    lemma CutLook(p: Pieces, header: Node, left: Node, right: Node)
      requires Cut(p, header, left, right)
      ensures p.m.Branch? && root == p.m.node && root in repr && Holds(p, contents, repr)
      ensures root.left == Root(p.m.left) && root.right == Root(p.m.right)
      ensures p.m.left.Branch? ==> p.m.left.node in repr
      ensures p.m.right.Branch? ==> p.m.right.node in repr
      ensures (left == header || left in repr) && (right == header || right in repr)
    {
      PiecesApart(p);
    }

    lemma ReprIsContents()
      requires Valid()
      ensures repr == set n | n in contents
    {
      NodesInOrder(shape);
    }

    lemma CutStart(p: Pieces, header: Node)
      requires p.l == End && p.r == End && Holds(p, contents, repr) && header !in repr
      requires root == Root(p.m) && Linked(p.m)
      ensures Cut(p, header, header, header)
    {
    }

    // ---------- SPLAY_MINMAX ----------

    /** Splays the first element (`comp` negative) or the last (`comp` positive): the same
        as a splay for any key `k` below (above) all others. */
    method SplayMinMax(comp: int, ghost k: int) returns (ghost steps: nat)
      requires Valid() && root != null && comp != 0
      requires forall n <- contents :: if comp < 0 then k < n.key else n.key < k
      modifies `root, `shape, `repr, repr
      ensures Valid() && repr == old(repr) && shape.Branch?
      ensures if comp < 0 then shape.left.Leaf? else shape.right.Leaf?
      ensures old(shape).Branch? && shape == Splayed(old(shape), k)
      ensures steps <= Steps(old(shape), k)
    {
      hide Cut, Valid, Holds, SplayLoop, Splayed, LeftClosed, RightClosed, Steps;
      steps := 0;
      ReprIsContents();
      ghost var p := Uncut(k);
      SplayedWithin(shape, k, p.lo, p.hi);
      var header := new Node(0);
      var left, right := header, header;
      CutStart(p, header);
      while true
        invariant Cut(p, header, left, right) && repr == old(repr)
        invariant p.m.Branch? && root == p.m.node && root in repr
        invariant if comp < 0 then p.l.End? else p.r.End?
        invariant Assembled(SplayLoop(p, k)) == Splayed(old(shape), k)
        invariant steps + Steps(p.m, k) <= Steps(old(shape), k)
        decreases p.m
      {
        CutLook(p, header, left, right);
        MiddleInside(p);
        SplayLoopStep(p, k);
        RoundSteps(p.m, k);
        steps := steps + 1;
        if comp < 0 {
          var tmp := root.left;
          if tmp == null {
            break;
          }
          if comp < 0 {
            TurnRight(tmp, p, header, left, right);
            p := p.(m := RightRotated(p.m));
            CutLook(p, header, left, right);
            if root.left == null {
              break;
            }
          }
          right := LinkLeft(right, p, header, left);
          p := LinkedLeft(p);
        } else if comp > 0 {
          var tmp := root.right;
          if tmp == null {
            break;
          }
          if comp > 0 {
            TurnLeft(tmp, p, header, left, right);
            p := p.(m := LeftRotated(p.m));
            CutLook(p, header, left, right);
            if root.right == null {
              break;
            }
          }
          left := LinkRight(left, p, header, right);
          p := LinkedRight(p);
        }
        CutLook(p, header, left, right);
      }
      CutLook(p, header, left, right);
      MiddleInside(p);
      SplayLoopStep(p, k);
      ClosedEdge(p.m);
      Assemble(header, left, right, p);
    }

    lemma MiddleInside(p: Pieces)
      requires Holds(p, contents, repr)
      ensures p.m.Branch? && p.m.node in contents
      ensures p.m.left.Branch? ==> p.m.left.node in contents
      ensures p.m.right.Branch? ==> p.m.right.node in contents
    {
      hide Ordered, LeftOrdered, RightOrdered, Nodes, ChainNodes, LeftOrder, RightOrder;
      var m := InOrder(p.m);
      assert forall n <- m :: n in contents;
      assert forall n <- InOrder(p.m.left) + [p.m.node] + InOrder(p.m.right) :: n in contents;
      RootInside(p.m);
      RootInside(p.m.left);
      RootInside(p.m.right);
    }

    lemma RootInside(t: Tree)
      ensures t.Branch? ==>
        && t.node in InOrder(t)
        && (forall n <- InOrder(t.left) :: n in InOrder(t))
        && (forall n <- InOrder(t.right) :: n in InOrder(t))
    {
    }

    lemma ClosedEdge(m: Tree)
      requires m.Branch?
      ensures LeftClosed(End, m.left) == m.left && RightClosed(End, m.right) == m.right
    {
    }

    // ---------- the tree around its root ----------

    /** What the heap and the order say about the root of a valid tree. */
    lemma LookRoot()
      requires Valid()
      ensures root == null <==> shape.Leaf?
      ensures root == null <==> contents == []
      ensures root == null ==> repr == {}
      ensures root != null ==>
        && root == shape.node && root in repr && root in contents
        && root.left == Root(shape.left) && root.right == Root(shape.right)
        && contents == InOrder(shape.left) + [root] + InOrder(shape.right)
        && (forall n <- InOrder(shape.left) :: n.key < root.key)
        && (forall n <- InOrder(shape.right) :: root.key < n.key)
    {
      if root != null {
        AscendingParts<Node>(InOrder(shape.left), root, InOrder(shape.right), Key);
      }
    }

    lemma LookSize()
      requires Valid()
      ensures Size(shape) == |contents|
    {
      SizeIsLength(shape);
    }

    /** A key that is not at the root after the splay is nowhere in the tree. */
    lemma NearDecides(k: int)
      requires Valid() && Near(shape, k)
      ensures root != null
      ensures root.key != k ==> forall n <- contents :: n.key != k
    {
      LookRoot();
    }

    // ---------- SPLAY_FIND ----------

    /** SPLAY_FIND: the element with the key of `elm`, splayed to the root. */
    method Find(elm: Node) returns (res: Node?, ghost steps: nat)
      requires Valid()
      modifies `root, `shape, `repr, repr
      ensures Valid() && repr == old(repr)
      ensures res != null ==> res in contents && res.key == elm.key && root == res
      ensures res == null ==> forall n <- contents :: n.key != elm.key
      ensures Afforded(steps, shape, old(shape), |old(contents)|)
    {
      hide Valid, Near, Afforded, Splayed, Steps;
      LookRoot();
      LookSize();
      if root == null {
        NothingAffords(0);
        return null, 0;
      }
      steps := Splay(elm);
      LookupAffords(old(shape), elm.key, steps);
      LookRoot();
      NearDecides(elm.key);
      if Cmp(elm, root) == 0 {
        return root, steps;
      }
      return null, steps;
    }

    // ---------- SPLAY_INSERT ----------

    /** SPLAY_INSERT: `elm` becomes the root, unless an element has its key already. */
    method Insert(elm: Node) returns (res: Node?, ghost steps: nat)
      requires Valid()
      modifies this, repr, elm
      ensures Valid()
      ensures res == null <==> forall n <- old(contents) :: n.key != elm.key
      ensures res != null ==> res in contents && res.key == elm.key && root == res
      ensures res != null ==> contents == old(contents) && repr == old(repr)
      ensures res == null ==> Inserted(old(contents), elm, contents) && repr == old(repr) + {elm} && root == elm
      ensures Afforded(steps, shape, old(shape), |old(contents)|)
    {
      hide Valid, Near, Inserted, Afforded, Splayed, Steps;
      steps := 0;
      LookRoot();
      LookSize();
      if root == null {
        elm.left, elm.right := null, null;
        InsertFirst(elm);
        FirstAffords(elm);
      } else {
        steps := Splay(elm);
        LookRoot();
        NearDecides(elm.key);
        var comp := Cmp(elm, root);
        if comp < 0 {
          InsertBefore(elm);
          InsertAffords(old(shape), elm.key, steps, elm, shape);
        } else if comp > 0 {
          InsertAfter(elm);
          InsertAffords(old(shape), elm.key, steps, elm, shape);
        } else {
          LookupAffords(old(shape), elm.key, steps);
          return root, steps;
        }
      }
      return null, steps;
    }

    /** The first element of the tree. */
    method InsertFirst(elm: Node)
      requires contents == [] && repr == {} && elm.left == null && elm.right == null
      modifies this
      ensures Valid() && Inserted(old(contents), elm, contents) && repr == old(repr) + {elm} && root == elm
      ensures shape == Branch(Leaf, elm, Leaf)
    {
      root := elm;
      shape, contents, repr := Branch(Leaf, elm, Leaf), [elm], {elm};
      InsertedBetween<Node>([], elm, []);
      assert [] + [elm] + [] == [elm];
    }

    /** The root follows the new key: it keeps only its right subtree. */
    method InsertBefore(elm: Node)
      requires Valid() && Near(shape, elm.key) && root != null && elm.key < root.key
      modifies this, repr, elm
      ensures Valid() && Inserted(old(contents), elm, contents) && repr == old(repr) + {elm} && root == elm
      ensures old(shape).Branch? && shape == SplitBefore(old(shape), elm)
    {
      hide Linked, Ascending, Nodes, InOrder, Inserted;
      ghost var t := shape;
      RootApart(t);
      SplitNodes(t, elm);
      SplitBeforeSorted(t, elm);
      LinkedStep(t.left, t.node, t.right);
      InsideAndOut(t, elm);
      elm.left := root.left;
      elm.right := root;
      root.left := null;
      root := elm;
      LinkedLeaf();
      LinkedStep(Leaf, t.node, t.right);
      LinkedStep(t.left, elm, Branch(Leaf, t.node, t.right));
      shape := SplitBefore(t, elm);
      contents, repr := InOrder(shape), Nodes(shape);
    }

    /** The root precedes the new key: it keeps only its left subtree. */
    method InsertAfter(elm: Node)
      requires Valid() && Near(shape, elm.key) && root != null && root.key < elm.key
      modifies this, repr, elm
      ensures Valid() && Inserted(old(contents), elm, contents) && repr == old(repr) + {elm} && root == elm
      ensures old(shape).Branch? && shape == SplitAfter(old(shape), elm)
    {
      hide Linked, Ascending, Nodes, InOrder, Inserted;
      ghost var t := shape;
      RootApart(t);
      SplitNodes(t, elm);
      SplitAfterSorted(t, elm);
      LinkedStep(t.left, t.node, t.right);
      InsideAndOut(t, elm);
      elm.right := root.right;
      elm.left := root;
      root.right := null;
      root := elm;
      LinkedLeaf();
      LinkedStep(t.left, t.node, Leaf);
      LinkedStep(Branch(t.left, t.node, Leaf), elm, t.right);
      shape := SplitAfter(t, elm);
      contents, repr := InOrder(shape), Nodes(shape);
    }

    lemma LinkedLeaf()
      ensures Linked(Leaf)
    {
    }

    /** A node whose key is missing next to the root is not in the tree at all. */
    lemma InsideAndOut(t: Tree, elm: Node)
      requires t.Branch? && Near(t, elm.key) && Ascending(InOrder(t), Key) && elm.key != t.node.key
      ensures elm !in Nodes(t.left) && elm !in Nodes(t.right) && elm != t.node
      ensures Nodes(t.left) <= Nodes(t) && Nodes(t.right) <= Nodes(t) && t.node in Nodes(t)
    {
      RootApart(t);
      NodesInOrder(t.left);
      NodesInOrder(t.right);
    }

    // ---------- SPLAY_REMOVE ----------

    /** SPLAY_REMOVE: `gone` is the element that leaves the tree; the result is the argument. */
    method Remove(elm: Node) returns (res: Node?, ghost gone: Node?, ghost steps: nat)
      requires Valid()
      modifies this, repr
      ensures Valid()
      ensures res == null <==> forall n <- old(contents) :: n.key != elm.key
      ensures res == null ==> contents == old(contents) && repr == old(repr)
      ensures res != null ==> res == elm && gone != null && gone.key == elm.key
      ensures res != null ==> Inserted<Node>(contents, gone, old(contents)) && repr == old(repr) - {gone}
      ensures Afforded(steps, shape, old(shape), |old(contents)|)
    {
      hide Valid, Near, Inserted, Afforded, Splayed, Steps;
      LookRoot();
      LookSize();
      if root == null {
        NothingAffords(0);
        return null, null, 0;
      }
      steps := Splay(elm);
      LookRoot();
      NearDecides(elm.key);
      if Cmp(elm, root) == 0 {
        gone := root;
        ghost var more := RemoveRoot(elm);
        RemoveAffords(old(shape), elm.key, steps, more, shape);
        return elm, gone, steps + more;
      }
      LookupAffords(old(shape), elm.key, steps);
      return null, null, steps;
    }

    method RemoveRoot(elm: Node) returns (ghost more: nat)
      requires Valid() && root != null && root.key == elm.key
      modifies this, repr
      ensures Valid() && Inserted<Node>(contents, old(root), old(contents)) && repr == old(repr) - {old(root)}
      ensures old(shape).Branch?
      ensures
        var t := old(shape);
        if t.left.Leaf? then more == 0 && shape == t.right
        else
          var v := Splayed(t.left, elm.key);
          v.Branch? && v.right.Leaf? && more <= Steps(t.left, elm.key) && shape == Branch(v.left, v.node, t.right)
    {
      hide Linked, Ascending, InOrder, Inserted, Near, Splayed, Steps;
      more := 0;
      ghost var t := shape;
      RootApart(t);
      RootRemoved(t);
      LinkedStep(t.left, t.node, t.right);
      if root.left == null {
        root := root.right;
        shape := t.right;
        contents, repr := InOrder(shape), Nodes(shape);
        EmptyLeft(t);
      } else {
        more := JoinSubtrees(elm, t);
      }
    }

    /** Splays the left subtree for `elm` and hangs the right one below its new root. */
    method JoinSubtrees(elm: Node, ghost t: Tree) returns (ghost more: nat)
      requires t.Branch? && root == t.node && t.left.Branch? && root.left == Root(t.left) && root.right == Root(t.right)
      requires Linked(t.left) && Linked(t.right) && Ascending(InOrder(t.left) + InOrder(t.right), Key)
      requires Ascending(InOrder(t.left), Key) && forall n <- InOrder(t.left) :: n.key < elm.key
      requires Nodes(t.left) !! Nodes(t.right) && Nodes(t.left) <= repr && Nodes(t.right) <= repr
      modifies this, repr
      ensures Valid() && contents == InOrder(t.left) + InOrder(t.right)
      ensures repr == Nodes(t.left) + Nodes(t.right)
      ensures
        var v := Splayed(t.left, elm.key);
        v.Branch? && v.right.Leaf? && more <= Steps(t.left, elm.key) && shape == Branch(v.left, v.node, t.right)
    {
      hide Linked, Ascending, InOrder, Nodes, Near, Splayed, Steps;
      var tmp := root.right;
      root := root.left;
      shape := t.left;
      contents, repr := InOrder(shape), Nodes(shape);
      more := Splay(elm);
      NoRight(elm.key);
      ghost var u := shape;
      LinkedStep(u.left, u.node, u.right);
      OutsideRight(u);
      Rejoined(u, t.right, contents);
      root.right := tmp;
      shape := u.(right := t.right);
      LinkedStep(u.left, u.node, t.right);
      contents, repr := InOrder(shape), Nodes(shape);
    }

    lemma OutsideRight(u: Tree)
      requires u.Branch? && Ascending(InOrder(u), Key)
      ensures u.node !in Nodes(u.left)
    {
      RootApart(u);
    }

    lemma EmptyLeft(t: Tree)
      requires t.Branch? && t.left.Leaf?
      ensures InOrder(t.left) + InOrder(t.right) == InOrder(t.right)
    {
    }

    /** Splayed for a key above every element, the tree has its maximum at the root. */
    lemma NoRight(k: int)
      requires Valid() && Near(shape, k) && forall n <- contents :: n.key < k
      ensures shape.Branch? && shape.right.Leaf?
    {
      RightInside(shape);
      LookRoot();
    }

    // ---------- SPLAY_NEXT, SPLAY_MIN, SPLAY_MAX ----------

    /** SPLAY_NEXT: the element after `elm0`. */
    method Next(elm0: Node) returns (elm: Node?)
      requires Valid() && elm0 in repr
      modifies `root, `shape, `repr, repr
      ensures Valid() && repr == old(repr)
      ensures Successor(contents, elm0, elm, null)
    {
      hide Valid, Near, Successor;
      LookRoot();
      ghost var steps := Splay(elm0);
      SplayedTo(elm0);
      LookRoot();
      elm := elm0;
      if elm.right != null {
        elm := Leftmost();
      } else {
        elm := null;
      }
      NextInOrder(elm);
    }

    /** The way down to the first element of the right subtree. */
    method Leftmost() returns (elm: Node)
      requires Valid() && root != null && root.right != null
      ensures InOrder(shape.right) != [] && elm == InOrder(shape.right)[0]
    {
      elm := root.right;
      ghost var u := shape.right;
      while elm.left != null
        invariant u.Branch? && Linked(u) && elm == u.node
        invariant InOrder(u) != [] && InOrder(u)[0] == InOrder(shape.right)[0]
        decreases u
      {
        elm := elm.left;
        u := u.left;
      }
    }

    lemma SplayedTo(elm: Node)
      requires Valid() && Near(shape, elm.key) && elm in repr
      ensures root == elm
    {
      NodesInOrder(shape);
      LookRoot();
    }

    lemma NextInOrder(elm: Node?)
      requires Valid() && root != null
      requires if shape.right.Leaf? then elm == null else InOrder(shape.right) != [] && elm == InOrder(shape.right)[0]
      ensures Successor(contents, root, elm, null)
    {
      SuccessorIntro(InOrder(shape.left), root, InOrder(shape.right), null);
    }

    /** SPLAY_MIN_MAX */
    method MinMax(val: int) returns (res: Node, ghost steps: nat)
      requires Valid() && root != null && val != 0
      modifies `root, `shape, `repr, repr
      ensures Valid() && repr == old(repr)
      ensures contents != [] && res == if val < 0 then contents[0] else contents[|contents| - 1]
      ensures Afforded(steps, shape, old(shape), |old(contents)|)
    {
      hide Valid, Afforded, Splayed, Steps;
      LookSize();
      ghost var lo, hi := Bounds(contents, 0, Key);
      ghost var k := if val < 0 then lo else hi;
      steps := SplayMinMax(val, k);
      LookupAffords(old(shape), k, steps);
      LookRoot();
      NoSide();
      res := root;
    }

    lemma NoSide()
      ensures InOrder(Leaf) == []
    {
    }

    lemma ValidAscending()
      requires Valid()
      ensures Ascending(contents, Key)
    {
    }

    /** SPLAY_MIN */
    method Min() returns (res: Node?, ghost steps: nat)
      requires Valid()
      modifies `root, `shape, `repr, repr
      ensures Valid() && repr == old(repr)
      ensures res == if contents == [] then null else contents[0]
      ensures Afforded(steps, shape, old(shape), |old(contents)|)
    {
      hide Valid, Afforded;
      LookRoot();
      if root == null {
        NothingAffords(0);
        return null, 0;
      } else {
        res, steps := MinMax(-1);
      }
    }
  }

  /** SPLAY_FOREACH */
  method Foreach(tree: SplayTree) returns (visited: seq<Node>)
    requires tree.Valid()
    modifies tree`root, tree`shape, tree`repr, tree.repr
    ensures tree.Valid() && tree.repr == old(tree.repr) && visited == tree.contents
  {
    hide SplayTree.Valid, Successor, Ascending;
    visited := [];
    ghost var s := tree.contents;
    var x, _ := tree.Min();
    while x != null
      invariant tree.Valid() && tree.repr == old(tree.repr) && tree.contents == s
      invariant |visited| <= |s| && visited == s[..|visited|]
      invariant x == if |visited| < |s| then s[|visited|] else null
      decreases |s| - |visited|
    {
      tree.ReprIsContents();
      tree.ValidAscending();
      AscendingDistinct(s, Key);
      ghost var k := |visited|;
      visited := visited + [x];
      var y := tree.Next(x);
      Neighbours(s, k, y, null);
      x := y;
    }
  }
}
