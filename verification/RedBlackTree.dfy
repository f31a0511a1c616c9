/**
  The red-black tree operations, on nodes in the heap.

  Ghost parameters name the place that an operation works at: the subtree `t` there and the
  path `z` from it to the root. `At(z, t)` says that the heap looks like that. Recursive
  definitions are hidden where only their step lemmas are needed.
 */
module RedBlackTrees {
  import opened Arithmetic
  import opened RedBlackShape
  import opened Sequences

  /** The links and colours in the heap are those of `t`, hanging below `parent`. */
  ghost predicate Linked(t: Tree, parent: Node?)
    reads Nodes(t)
  {
    match t
    case Leaf => true
    case Branch(l, n, c, r) =>
      && n.left == Root(l) && n.right == Root(r) && n.parent == parent && n.color == c
      && Linked(l, n) && Linked(r, n)
  }

  /** The links and colours in the heap are those of `z`, up to `root`, around a subtree
      whose root is `hole`. */
  ghost predicate PathLinked(z: Path, hole: Node?, root: Node?)
    reads PathNodes(z)
    decreases z
  {
    match z
    case Top(_, _) => root == hole
    case GoLeft(up, n, c, r) =>
      && n.left == hole && n.right == Root(r) && n.parent == Parent(up) && n.color == c
      && Linked(r, n) && PathLinked(up, n, root)
    case GoRight(l, n, c, up) =>
      && n.right == hole && n.left == Root(l) && n.parent == Parent(up) && n.color == c
      && Linked(l, n) && PathLinked(up, n, root)
  }

  lemma LinkedStep(l: Tree, n: Node, c: Color, r: Tree, parent: Node?)
    ensures Linked(Branch(l, n, c, r), parent) <==>
      && n.left == Root(l) && n.right == Root(r) && n.parent == parent && n.color == c
      && Linked(l, n) && Linked(r, n)
  {
  }

  /** The element just after everything below the hole of `z`. */
  ghost function FirstAfter(z: Path): Node? {
    if After(z) == [] then null else After(z)[0]
  }

  lemma FirstAfterStep(z: Path, t: Tree)
    ensures z.Top? ==> FirstAfter(z) == null
    ensures t.Branch? ==> FirstAfter(GoLeft(z, t.node, t.color, t.right)) == t.node
    ensures t.Branch? ==> FirstAfter(GoRight(t.left, t.node, t.color, z)) == FirstAfter(z)
  {
  }

  /** The comparison the tree is generated with: its sign orders the keys. */
  function Cmp(a: Node, b: Node): int {
    if a.key < b.key then -1 else if a.key > b.key then 1 else 0
  }

  /** What an update takes: steps down the tree, rounds of the repair loop, rotations. */
  datatype Work = Work(steps: nat, rounds: nat, turns: nat)

  /** Both loops stay within 2 lg (n + 1), and there are at most `turns` rotations. */
  ghost predicate Cheap(work: Work, n: nat, turns: nat) {
    Logarithmic(work.steps, n) && Logarithmic(work.rounds, n) && work.turns <= turns
  }

  /** The head of a tree. */
  class RedBlackTree {
    var root: Node?
    ghost var shape: Tree
    ghost var contents: seq<Node>
    ghost var repr: set<Node>

    ghost predicate Valid()
      reads this, repr
    {
      && repr == Nodes(shape) && contents == InOrder(shape)
      && Ascending(contents, Key) && RedBlack(shape)
      && root == Root(shape) && Linked(shape, null)
    }

    constructor ()
      ensures Valid() && contents == [] && repr == {}
    {
      root := null;
      shape, contents, repr := Leaf, [], {};
    }

    /** The heap holds `t` at the place `z` of a tree with these contents. */
    ghost predicate At(z: Path, t: Tree)
      reads `root, `contents, `repr, repr
    {
      && Placed(z, t, contents, repr)
      && Linked(t, Parent(z)) && PathLinked(z, Root(t), root)
    }

    /** Moving the place one level down, or up, changes nothing in the heap. */
    lemma Descend(z: Path, t: Tree)
      requires t.Branch?
      ensures At(z, t) <==> At(GoLeft(z, t.node, t.color, t.right), t.left)
      ensures At(z, t) <==> At(GoRight(t.left, t.node, t.color, z), t.right)
    {
      hide Linked, Placed;
      LinkedStep(t.left, t.node, t.color, t.right, Parent(z));
      PlacedDown(z, t.left, t.node, t.color, t.right, contents, repr);
    }

    lemma Ascend(z: Path, t: Tree)
      requires !z.Top?
      ensures At(z, t) <==> At(z.up, Lift(z, t))
    {
      hide At;
      Descend(z.up, Lift(z, t));
    }

    /** What the heap says at the top of a subtree. */
    lemma Look(z: Path, t: Tree)
      requires At(z, t) && t.Branch?
      ensures t.node in repr && Lo(z) < t.node.key < Hi(z)
      ensures t.node.left == Root(t.left) && t.node.right == Root(t.right)
      ensures t.node.parent == Parent(z) && t.node.color == t.color
    {
      hide Ordered, PathLinked;
      LinkedStep(t.left, t.node, t.color, t.right, Parent(z));
      OrderedStep(t.left, t.node, t.color, t.right, Lo(z), Hi(z));
    }

    // ---------- link surgery ----------

    /** Redirects the link from above `elm` (its parent's, or the head's) to `tmp`. */
    method ReplaceChild(parent: Node?, elm: Node, tmp: Node?, ghost z: Path)
      requires PathNodes(z) <= repr && PathOrdered(z) && Lo(z) < elm.key < Hi(z)
      requires parent == Parent(z) && PathLinked(z, elm, root)
      modifies `root, PathNodes(z)
      ensures PathLinked(z, tmp, root)
    {
      if parent != null {
        if parent.left == elm {
          parent.left := tmp;
        } else {
          parent.right := tmp;
        }
      } else {
        root := tmp;
      }
    }

    /** Points the parent link of `child`, if there is one, to `parent`. */
    method Adopt(child: Node?, parent: Node?, ghost t: Tree, ghost was: Node?, ghost lo: int, ghost hi: int)
      requires child == Root(t) && Ordered(t, lo, hi) && Linked(t, was)
      modifies Nodes(t)`parent
      ensures Linked(t, parent)
    {
      if child != null {
        child.parent := parent;
      }
    }

    /** The pieces of a rotation: subtrees `a`, `b`, `c` around the nodes `x` and `y`, with
        `b` below `under`, inside the path `z` whose hole holds `hole`. */
    ghost predicate Pieces(z: Path, a: Tree, x: Node, b: Tree, y: Node, c: Tree, under: Node, hole: Node)
      reads `root, `repr, repr
    {
      && Nodes(a) <= repr && Nodes(b) <= repr && Nodes(c) <= repr && PathNodes(z) <= repr
      && x in repr && y in repr
      && Ordered(a, Lo(z), x.key) && Ordered(b, x.key, y.key) && Ordered(c, y.key, Hi(z)) && PathOrdered(z)
      && Lo(z) < x.key < y.key < Hi(z)
      && Linked(a, x) && Linked(b, under) && Linked(c, y) && PathLinked(z, hole, root)
    }

    lemma PiecesOfLeft(z: Path, t: Tree)
      requires At(z, t) && t.Branch? && t.right.Branch?
      ensures Pieces(z, t.left, t.node, t.right.left, t.right.node, t.right.right, t.right.node, t.node)
      ensures t.node.right == t.right.node && t.node.left == Root(t.left)
      ensures t.node.parent == Parent(z) && t.node.color == t.color
      ensures t.right.node.left == Root(t.right.left) && t.right.node.right == Root(t.right.right)
      ensures t.right.node.color == t.right.color
    {
      hide Linked, Ordered, PathLinked, PathOrdered, InOrder, Plug;
      var u := t.right;
      LinkedStep(t.left, t.node, t.color, u, Parent(z));
      LinkedStep(u.left, u.node, u.color, u.right, t.node);
      OrderedStep(t.left, t.node, t.color, u, Lo(z), Hi(z));
      OrderedStep(u.left, u.node, u.color, u.right, t.node.key, Hi(z));
    }

    lemma PiecesOfRight(z: Path, t: Tree)
      requires At(z, t) && t.Branch? && t.left.Branch?
      ensures Pieces(z, t.left.left, t.left.node, t.left.right, t.node, t.right, t.left.node, t.node)
      ensures t.node.left == t.left.node && t.node.right == Root(t.right)
      ensures t.node.parent == Parent(z) && t.node.color == t.color
      ensures t.left.node.left == Root(t.left.left) && t.left.node.right == Root(t.left.right)
      ensures t.left.node.color == t.left.color
    {
      hide Linked, Ordered, PathLinked, PathOrdered, InOrder, Plug;
      var u := t.left;
      LinkedStep(u, t.node, t.color, t.right, Parent(z));
      LinkedStep(u.left, u.node, u.color, u.right, t.node);
      OrderedStep(u, t.node, t.color, t.right, Lo(z), Hi(z));
      OrderedStep(u.left, u.node, u.color, u.right, Lo(z), t.node.key);
    }

    /** No node is in two of the pieces. */
    lemma PiecesApart(z: Path, a: Tree, x: Node, b: Tree, y: Node, c: Tree, under: Node, hole: Node)
      requires Pieces(z, a, x, b, y, c, under, hole)
      ensures x !in Nodes(a) && x !in Nodes(b) && x !in Nodes(c) && x !in PathNodes(z)
      ensures y !in Nodes(a) && y !in Nodes(b) && y !in Nodes(c) && y !in PathNodes(z) && x != y
      ensures PathNodes(z) !! Nodes(a) && PathNodes(z) !! Nodes(b) && PathNodes(z) !! Nodes(c)
    {
      hide PathLinked, PathOrdered, PathNodes, Nodes, Linked, Ordered;
    }

    /** RB_ROTATE_LEFT at `elm`, the root of `t`. */
    method RotateLeft(elm: Node, ghost z: Path, ghost t: Tree) returns (tmp: Node)
      requires At(z, t) && t.Branch? && t.right.Branch? && elm == t.node
      modifies `root, repr
      ensures At(z, LeftRotated(t)) && tmp == t.right.node
    {
      hide Linked, PathLinked, Ordered, PathOrdered, Nodes, PathNodes, Placed;
      ghost var u := t.right;
      PiecesOfLeft(z, t);
      PlacedRotated(z, t, contents, repr);
      tmp := elm.right;
      ShiftLeft(elm, tmp, z, t.left, u.left, u.right);
      LiftLeft(elm, tmp, z, t.left, u.left, u.right);
      LinkedStep(t.left, elm, t.color, u.left, tmp);
      LinkedStep(LeftRotated(t).left, tmp, u.color, u.right, Parent(z));
    }

    method ShiftLeft(elm: Node, tmp: Node, ghost z: Path, ghost a: Tree, ghost b: Tree, ghost c: Tree)
      requires Pieces(z, a, elm, b, tmp, c, tmp, elm) && tmp.left == Root(b)
      modifies elm`right, Nodes(b)`parent
      ensures Pieces(z, a, elm, b, tmp, c, elm, elm) && elm.right == Root(b)
    {
      hide PathLinked, PathOrdered, PathNodes, Nodes, Linked, Ordered;
      elm.right := tmp.left;
      Adopt(tmp.left, elm, b, tmp, elm.key, tmp.key);
    }

    method LiftLeft(elm: Node, tmp: Node, ghost z: Path, ghost a: Tree, ghost b: Tree, ghost c: Tree)
      requires Pieces(z, a, elm, b, tmp, c, elm, elm) && elm.parent == Parent(z)
      modifies `root, elm`parent, tmp`parent, tmp`left, PathNodes(z)
      ensures Pieces(z, a, elm, b, tmp, c, elm, tmp)
      ensures tmp.parent == Parent(z) && tmp.left == elm && elm.parent == tmp
      ensures tmp.right == old(tmp.right) && tmp.color == old(tmp.color)
      ensures elm.left == old(elm.left) && elm.right == old(elm.right) && elm.color == old(elm.color)
    {
      hide PathLinked, PathOrdered, PathNodes, Nodes, Linked, Ordered;
      PiecesApart(z, a, elm, b, tmp, c, elm, elm);
      tmp.parent := elm.parent;
      ReplaceChild(elm.parent, elm, tmp, z);
      tmp.left := elm;
      elm.parent := tmp;
    }

    /** RB_ROTATE_RIGHT at `elm`, the root of `t`. */
    method RotateRight(elm: Node, ghost z: Path, ghost t: Tree) returns (tmp: Node)
      requires At(z, t) && t.Branch? && t.left.Branch? && elm == t.node
      modifies `root, repr
      ensures At(z, RightRotated(t)) && tmp == t.left.node
    {
      hide Linked, PathLinked, Ordered, PathOrdered, Nodes, PathNodes, Placed;
      ghost var u := t.left;
      PiecesOfRight(z, t);
      PlacedRotated(z, RightRotated(t), contents, repr);
      tmp := elm.left;
      ShiftRight(elm, tmp, z, u.left, u.right, t.right);
      LiftRight(elm, tmp, z, u.left, u.right, t.right);
      LinkedStep(u.right, elm, t.color, t.right, tmp);
      LinkedStep(u.left, tmp, u.color, RightRotated(t).right, Parent(z));
    }

    method ShiftRight(elm: Node, tmp: Node, ghost z: Path, ghost a: Tree, ghost b: Tree, ghost c: Tree)
      requires Pieces(z, a, tmp, b, elm, c, tmp, elm) && tmp.right == Root(b)
      modifies elm`left, Nodes(b)`parent
      ensures Pieces(z, a, tmp, b, elm, c, elm, elm) && elm.left == Root(b)
    {
      hide PathLinked, PathOrdered, PathNodes, Nodes, Linked, Ordered;
      elm.left := tmp.right;
      Adopt(tmp.right, elm, b, tmp, tmp.key, elm.key);
    }

    method LiftRight(elm: Node, tmp: Node, ghost z: Path, ghost a: Tree, ghost b: Tree, ghost c: Tree)
      requires Pieces(z, a, tmp, b, elm, c, elm, elm) && elm.parent == Parent(z)
      modifies `root, elm`parent, tmp`parent, tmp`right, PathNodes(z)
      ensures Pieces(z, a, tmp, b, elm, c, elm, tmp)
      ensures tmp.parent == Parent(z) && tmp.right == elm && elm.parent == tmp
      ensures tmp.left == old(tmp.left) && tmp.color == old(tmp.color)
      ensures elm.left == old(elm.left) && elm.right == old(elm.right) && elm.color == old(elm.color)
    {
      hide PathLinked, PathOrdered, PathNodes, Nodes, Linked, Ordered;
      PiecesApart(z, a, tmp, b, elm, c, elm, elm);
      tmp.parent := elm.parent;
      ReplaceChild(elm.parent, elm, tmp, z);
      tmp.right := elm;
      elm.parent := tmp;
    }

    // ---------- colours ----------

    /** Sets the colour at the root of `t`. */
    method Paint(n: Node, c: Color, ghost z: Path, ghost t: Tree)
      requires At(z, t) && t.Branch? && n == t.node
      modifies n`color
      ensures At(z, Painted(t, c))
    {
      Look(z, t);
      PlacedPainted(z, t, c, contents, repr);
      OrderedStep(t.left, n, t.color, t.right, Lo(z), Hi(z));
      LinkedStep(t.left, n, t.color, t.right, Parent(z));
      hide Linked, Ordered, Nodes, PathLinked, PathOrdered, PathNodes, InOrder, Plug;
      n.color := c;
      LinkedStep(t.left, n, c, t.right, Parent(z));
    }

    method PaintLeft(n: Node, c: Color, ghost z: Path, ghost t: Tree)
      requires At(z, t) && t.Branch? && t.left.Branch? && n == t.left.node
      modifies n`color
      ensures At(z, t.(left := Painted(t.left, c)))
    {
      hide At;
      Descend(z, t);
      Paint(n, c, GoLeft(z, t.node, t.color, t.right), t.left);
      Descend(z, t.(left := Painted(t.left, c)));
    }

    method PaintRight(n: Node, c: Color, ghost z: Path, ghost t: Tree)
      requires At(z, t) && t.Branch? && t.right.Branch? && n == t.right.node
      modifies n`color
      ensures At(z, t.(right := Painted(t.right, c)))
    {
      hide At;
      Descend(z, t);
      Paint(n, c, GoRight(t.left, t.node, t.color, z), t.right);
      Descend(z, t.(right := Painted(t.right, c)));
    }

    lemma {:induction false} AtStart(z: Path, t: Tree)
      ensures At(z, t) <==> At(Start(z), Plug(z, t))
      decreases z
    {
      hide At;
      if z.Top? {
      } else {
        Ascend(z, t);
        AtStart(z.up, Lift(z, t));
      }
    }

    /** What the heap says about the frame just above a subtree. */
    lemma LookUp(z: Path, t: Tree)
      requires At(z, t) && !z.Top?
      ensures z.node in repr && z.node.parent == Parent(z.up) && z.node.color == z.color
      ensures z.GoLeft? ==> z.node.left == Root(t) && z.node.right == Root(z.right)
      ensures z.GoRight? ==> z.node.right == Root(t) && z.node.left == Root(z.left)
      ensures t.Branch? ==> (z.GoLeft? <==> z.node.left == Root(t)) && (z.GoRight? <==> z.node.right == Root(t))
    {
      hide At;
      var p := Lift(z, t);
      Ascend(z, t);
      Look(z.up, p);
      if p.left.Branch? { LookLeft(z.up, p); }
      if p.right.Branch? { LookRight(z.up, p); }
    }

    lemma LookLeft(z: Path, t: Tree)
      requires At(z, t) && t.Branch? && t.left.Branch?
      ensures t.left.node in repr && Lo(z) < t.left.node.key < t.node.key
      ensures t.left.node.left == Root(t.left.left) && t.left.node.right == Root(t.left.right)
      ensures t.left.node.color == t.left.color
    {
      hide At;
      Descend(z, t);
      Look(GoLeft(z, t.node, t.color, t.right), t.left);
    }

    lemma LookRight(z: Path, t: Tree)
      requires At(z, t) && t.Branch? && t.right.Branch?
      ensures t.right.node in repr && t.node.key < t.right.node.key < Hi(z)
      ensures t.right.node.left == Root(t.right.left) && t.right.node.right == Root(t.right.right)
      ensures t.right.node.color == t.right.color
    {
      hide At;
      Descend(z, t);
      Look(GoRight(t.left, t.node, t.color, z), t.right);
    }

    // ---------- RB_INSERT_COLOR ----------

    /** RB_INSERT_COLOR: repairs a red node below a red parent. */
    method InsertColor(elm: Node, ghost z0: Path, ghost t0: Tree)
      returns (ghost t: Tree, ghost rounds: nat, ghost turns: nat)
      requires At(z0, t0) && Hot(z0, t0) && elm == t0.node
      modifies `root, repr
      ensures At(Start(z0), t) && RedBlack(t)
      ensures rounds <= Depth(z0) && turns <= 2
    {
      hide At, Balanced, Colored, PathBalanced, PathColored, Plug;
      ghost var z, s := z0, t0;
      rounds, turns := 0, 0;
      var x := elm;
      Look(z, s);
      var parent := x.parent;
      while parent != null && parent.color.Red?
        invariant At(z, s) && Hot(z, s) && x == s.node && parent == Parent(z) && Start(z) == Start(z0)
        invariant rounds + Depth(z) <= Depth(z0) && turns <= 2 && (turns > 0 ==> TopIsBlack(z))
        decreases Depth(z)
      {
        LookUp(z, s);
        HotGrandparent(z, s);
        Ascend(z, s);
        LookUp(z.up, Lift(z, s));
        var gparent := parent.parent;
        if parent == gparent.left {
          x, z, s, turns := InsertColorLeft(x, parent, gparent, z, s);
        } else {
          x, z, s, turns := InsertColorRight(x, parent, gparent, z, s);
        }
        rounds := rounds + 1;
        Look(z, s);
        parent := x.parent;
      }
      if !z.Top? { LookUp(z, s); }
      t := InsertColorEnd(z, s);
    }

    method InsertColorEnd(ghost z: Path, ghost s: Tree) returns (ghost t: Tree)
      requires At(z, s) && Hot(z, s) && (z.Top? || z.color.Black?)
      modifies `root, repr
      ensures At(Start(z), t) && RedBlack(t)
    {
      AtStart(z, s);
      HotBlackened(z, s);
      t := Plug(z, s);
      if !z.Top? {
        FitPlug(z, s);
        PlugRoot(z, s);
      }
      RootAt(Start(z), t);
      hide At, Hot, Fit, Balanced, Colored;
      Paint(root, Black, Start(z), t);
      t := Painted(t, Black);
    }

    lemma RootAt(z: Path, t: Tree)
      requires At(z, t) && z.Top?
      ensures root == Root(t)
    {
    }

    /** One round of the loop below a grandparent's left child. */
    method InsertColorLeft(elm0: Node, parent0: Node, gparent: Node, ghost z: Path, ghost t: Tree)
      returns (elm: Node, ghost y: Path, ghost u: Tree, ghost turns: nat)
      requires At(z, t) && Hot(z, t) && elm0 == t.node && parent0 == Parent(z) && z.color.Red?
      requires z.up.GoLeft? && gparent == z.up.node
      modifies `root, repr
      ensures At(y, u) && Hot(y, u) && elm == u.node && Depth(y) < Depth(z) && Start(y) == Start(z)
      ensures turns <= 2 && (turns > 0 ==> TopIsBlack(y))
    {
      hide At, Balanced, Colored, PathBalanced, PathColored, Plug;
      turns := 0;
      var parent := parent0;
      elm, y, u := elm0, z.up.up, Lift(z.up, Lift(z, t));
      HotGrandparent(z, t);
      Look(z, t);
      LookUp(z, t);
      Ascend(z, t);
      Ascend(z.up, Lift(z, t));
      Look(y, u);
      if u.right.Branch? { LookRight(y, u); }
      LookLeft(y, u);
      var tmp := gparent.right;
      if tmp != null && tmp.color.Red? {
        HotRecoloredLeft(z, t);
        PaintRight(tmp, Black, y, u);
        u := u.(right := Painted(u.right, Black));
        PaintLeft(parent, Black, y, u);
        u := u.(left := Painted(u.left, Black));
        Paint(gparent, Red, y, u);
        u := Painted(u, Red);
        elm := gparent;
        return;
      }
      ghost var z1, t1 := z, t;
      if parent.right == elm {
        HotInnerLeft(z, t);
        tmp := RotateLeft(parent, z.up, Lift(z, t));
        turns := 1;
        t1 := Branch(z.left, parent, Red, t.left);
        z1 := GoLeft(z.up, elm, Red, t.right);
        Ascend(z1, t1);
        Ascend(z.up, Lift(z1, t1));
        tmp := parent;
        parent := elm;
        elm := tmp;
      }
      HotOuterLeft(z1, t1);
      u := Lift(z.up, Lift(z1, t1));
      PaintLeft(parent, Black, y, u);
      u := u.(left := Painted(u.left, Black));
      Paint(gparent, Red, y, u);
      u := Painted(u, Red);
      tmp := RotateRight(gparent, y, u);
      turns := turns + 1;
      y, u := GoLeft(y, parent, Black, Branch(z1.right, gparent, Red, z.up.right)), t1;
      Ascend(y, u);
    }

    /** One round of the loop below a grandparent's right child. */
    method InsertColorRight(elm0: Node, parent0: Node, gparent: Node, ghost z: Path, ghost t: Tree)
      returns (elm: Node, ghost y: Path, ghost u: Tree, ghost turns: nat)
      requires At(z, t) && Hot(z, t) && elm0 == t.node && parent0 == Parent(z) && z.color.Red?
      requires z.up.GoRight? && gparent == z.up.node
      modifies `root, repr
      ensures At(y, u) && Hot(y, u) && elm == u.node && Depth(y) < Depth(z) && Start(y) == Start(z)
      ensures turns <= 2 && (turns > 0 ==> TopIsBlack(y))
    {
      hide At, Balanced, Colored, PathBalanced, PathColored, Plug;
      turns := 0;
      var parent := parent0;
      elm, y, u := elm0, z.up.up, Lift(z.up, Lift(z, t));
      HotGrandparent(z, t);
      Look(z, t);
      LookUp(z, t);
      Ascend(z, t);
      Ascend(z.up, Lift(z, t));
      Look(y, u);
      if u.left.Branch? { LookLeft(y, u); }
      LookRight(y, u);
      var tmp := gparent.left;
      if tmp != null && tmp.color.Red? {
        HotRecoloredRight(z, t);
        PaintLeft(tmp, Black, y, u);
        u := u.(left := Painted(u.left, Black));
        PaintRight(parent, Black, y, u);
        u := u.(right := Painted(u.right, Black));
        Paint(gparent, Red, y, u);
        u := Painted(u, Red);
        elm := gparent;
        return;
      }
      ghost var z1, t1 := z, t;
      if parent.left == elm {
        HotInnerRight(z, t);
        tmp := RotateRight(parent, z.up, Lift(z, t));
        turns := 1;
        t1 := Branch(t.right, parent, Red, z.right);
        z1 := GoRight(t.left, elm, Red, z.up);
        Ascend(z1, t1);
        Ascend(z.up, Lift(z1, t1));
        tmp := parent;
        parent := elm;
        elm := tmp;
      }
      HotOuterRight(z1, t1);
      u := Lift(z.up, Lift(z1, t1));
      PaintRight(parent, Black, y, u);
      u := u.(right := Painted(u.right, Black));
      Paint(gparent, Red, y, u);
      u := Painted(u, Red);
      tmp := RotateLeft(gparent, y, u);
      turns := turns + 1;
      y, u := GoRight(Branch(z.up.left, gparent, Red, z1.left), parent, Black, y), t1;
      Ascend(y, u);
    }

    // ---------- RB_REMOVE_COLOR ----------

    /** RB_REMOVE_COLOR: repairs a place that is one black node short. */
    method RemoveColor(parent0: Node?, elm0: Node?, ghost z0: Path, ghost t0: Tree)
      returns (ghost t: Tree, ghost rounds: nat, ghost turns: nat)
      requires At(z0, t0) && Short(z0, t0) && parent0 == Parent(z0) && elm0 == Root(t0)
      modifies `root, repr
      ensures At(Start(z0), t) && RedBlack(t)
      ensures rounds <= Depth(z0) && turns <= 3
    {
      hide At, Balanced, Colored, PathBalanced, PathColored;
      rounds, turns := 0, 0;
      var parent, elm, done := parent0, elm0, false;
      ghost var z, s := z0, t0;
      if s.Branch? { Look(z, s); }
      RootBelow(z, s);
      while (elm == null || elm.color.Black?) && elm != root
        invariant At(z, s) && elm == Root(s) && Start(z) == Start(z0)
        invariant Short(z, s) && parent == Parent(z)
        invariant s.Branch? ==> elm.color == s.color
        invariant root == elm <==> z.Top?
        invariant rounds + (if IsRed(s) then 0 else Depth(z)) <= Depth(z0)
        invariant turns <= 3 && (turns > 0 ==> IsRed(s))
        decreases if IsRed(s) then 0 else 1 + Depth(z)
      {
        LookUp(z, s);
        ShortSibling(z, s);
        if parent.left == elm {
          elm, parent, done, z, s, turns := RemoveColorLeft(elm, parent, z, s);
        } else {
          elm, parent, done, z, s, turns := RemoveColorRight(elm, parent, z, s);
        }
        rounds := rounds + 1;
        if s.Branch? { Look(z, s); }
        if done {
          break;
        }
        RootBelow(z, s);
      }
      if elm != null {
        Look(z, s);
        Paint(elm, Black, z, s);
      }
      ghost var w := if s.Leaf? then s else Painted(s, Black);
      if !done { ShortBlackened(z, s); }
      AtStart(z, w);
      FitPlug(z, w);
      t := Plug(z, w);
    }

    /** The root is the top of a subtree exactly when nothing is above the subtree. */
    lemma RootBelow(z: Path, t: Tree)
      requires At(z, t)
      ensures root == Root(t) <==> z.Top?
    {
      if !z.Top? {
        RootInPath(z, Root(t));
        if t.Branch? { Look(z, t); }
      }
    }

    lemma {:induction false} RootInPath(z: Path, hole: Node?)
      requires PathLinked(z, hole, root) && !z.Top?
      ensures root in PathNodes(z)
      decreases z
    {
      if z.up.Top? {
      } else {
        RootInPath(z.up, z.node);
      }
    }

    /** One round of the loop when the short subtree is a left child. */
    method RemoveColorLeft(elm0: Node?, parent0: Node, ghost z: Path, ghost t: Tree)
      returns (elm: Node?, parent: Node?, done: bool, ghost y: Path, ghost u: Tree, ghost turns: nat)
      requires At(z, t) && Short(z, t) && !IsRed(t) && z.GoLeft? && elm0 == Root(t) && parent0 == z.node
      modifies `root, repr
      ensures At(y, u) && elm == Root(u) && Start(y) == Start(z)
      ensures if done then y.Top? && RedBlack(u) else Short(y, u) && parent == Parent(y)
      ensures !done && !IsRed(u) ==> Depth(y) < Depth(z)
      ensures turns <= 3 && (!done && turns > 0 ==> IsRed(u))
    {
      hide At, Balanced, Colored, PathBalanced, PathColored, Plug;
      ShortSibling(z, t);
      y, u := z.up, Lift(z, t);
      Ascend(z, t);
      Look(y, u);
      LookRight(y, u);
      var tmp := parent0.right;
      if tmp.color.Red? {
        ShortRedSiblingLeft(z, t);
        PaintRight(tmp, Black, y, u);
        u := u.(right := Painted(u.right, Black));
        Paint(parent0, Red, y, u);
        u := Painted(u, Red);
        tmp := RotateLeft(parent0, y, u);
        ghost var z1 := GoLeft(GoLeft(y, tmp, Black, z.right.right), parent0, Red, z.right.left);
        Ascend(z1.up, Lift(z1, t));
        ShortSibling(z1, t);
        Ascend(z1, t);
        Look(z1.up, Lift(z1, t));
        tmp := parent0.right;
        elm, parent, done, y, u, turns := RemoveColorLeftBlack(elm0, parent0, tmp, z1, t);
        turns := turns + 1;
      } else {
        elm, parent, done, y, u, turns := RemoveColorLeftBlack(elm0, parent0, tmp, z, t);
      }
    }

    /** The rest of the round, with a black sibling `tmp0`. */
    method RemoveColorLeftBlack(elm0: Node?, parent0: Node, tmp0: Node, ghost z: Path, ghost t: Tree)
      returns (elm: Node?, parent: Node?, done: bool, ghost y: Path, ghost u: Tree, ghost turns: nat)
      requires At(z, t) && Short(z, t) && !IsRed(t) && z.GoLeft? && elm0 == Root(t) && parent0 == z.node
      requires z.right.Branch? && tmp0 == z.right.node && z.right.color.Black?
      modifies `root, repr
      ensures At(y, u) && elm == Root(u) && Start(y) == Start(z)
      ensures if done then y.Top? && RedBlack(u) else Short(y, u) && parent == Parent(y)
      ensures !done ==> y == z.up && u.Branch? && u.color == z.color
      ensures turns <= if done then 2 else 0
    {
      hide At, Balanced, Colored, PathBalanced, PathColored, Plug;
      elm, parent, turns := elm0, parent0, 0;
      y, u := z.up, Lift(z, t);
      Ascend(z, t);
      Look(y, u);
      LookRight(y, u);
      Descend(y, u);
      LookNephews(GoRight(t, z.node, z.color, y), z.right);
      var tmp := tmp0;
      if (tmp.left == null || tmp.left.color.Black?) && (tmp.right == null || tmp.right.color.Black?) {
        ShortReddenedLeft(z, t);
        PaintRight(tmp, Red, y, u);
        u := u.(right := Painted(u.right, Red));
        elm := parent;
        Look(y, u);
        parent := elm.parent;
        done := false;
      } else {
        ghost var z1 := z;
        if tmp.right == null || tmp.right.color.Black? {
          z1 := TurnNearLeft(tmp, z, t);
          turns := 1;
          Ascend(z1, t);
          Look(y, Lift(z1, t));
          tmp := parent.right;
        }
        y, u := RemoveColorFarLeft(parent, tmp, z1, t);
        turns := turns + 1;
        elm := root;
        done := true;
      }
    }

    lemma LookNephews(z: Path, t: Tree)
      requires t.Branch? && At(z, t)
      ensures t.node.left == Root(t.left) && t.node.right == Root(t.right)
      ensures t.left.Branch? ==> t.left.node in repr && t.left.node.color == t.left.color
      ensures t.right.Branch? ==> t.right.node in repr && t.right.node.color == t.right.color
    {
      hide At;
      Look(z, t);
      if t.left.Branch? { LookLeft(z, t); }
      if t.right.Branch? { LookRight(z, t); }
    }

    /** The near child of the sibling is red and the far one is not. */
    method TurnNearLeft(tmp: Node, ghost z: Path, ghost t: Tree) returns (ghost z1: Path)
      requires At(z, t) && Short(z, t) && !IsRed(t) && z.GoLeft? && z.right.Branch? && tmp == z.right.node
      requires z.right.color.Black? && IsRed(z.right.left) && !IsRed(z.right.right)
      modifies `root, repr
      ensures At(z1, t) && Short(z1, t) && z1.GoLeft? && z1 == z.(right := z1.right)
      ensures z1.right.Branch? && z1.right.color.Black? && IsRed(z1.right.right)
    {
      hide At, Balanced, Colored, PathBalanced, PathColored, Plug;
      ShortNearLeft(z, t);
      Ascend(z, t);
      ghost var y, u := GoRight(t, z.node, z.color, z.up), z.right;
      Descend(z.up, Lift(z, t));
      LookNephews(y, u);
      Look(y, u);
      var oleft := tmp.left;
      if oleft != null {
        PaintLeft(oleft, Black, y, u);
      }
      u := u.(left := Painted(u.left, Black));
      Paint(tmp, Red, y, u);
      u := Painted(u, Red);
      oleft := RotateRight(tmp, y, u);
      z1 := z.(right := RightRotated(u));
      Ascend(y, RightRotated(u));
      Ascend(z1, t);
    }

    /** The far child of the sibling is red: one more rotation repairs the tree. */
    method RemoveColorFarLeft(parent: Node, tmp0: Node, ghost z: Path, ghost t: Tree)
      returns (ghost y: Path, ghost u: Tree)
      requires At(z, t) && Short(z, t) && !IsRed(t) && z.GoLeft? && parent == z.node
      requires z.right.Branch? && tmp0 == z.right.node && z.right.color.Black? && IsRed(z.right.right)
      modifies `root, repr
      ensures At(y, u) && y == Start(z) && RedBlack(u) && root == Root(u)
    {
      hide At, Balanced, Colored, PathBalanced, PathColored, Plug;
      ShortFarLeft(z, t);
      y, u := z.up, Lift(z, t);
      Ascend(z, t);
      Look(y, u);
      LookRight(y, u);
      PaintRight(tmp0, parent.color, y, u);
      u := u.(right := Painted(u.right, z.color));
      Paint(parent, Black, y, u);
      u := Painted(u, Black);
      Descend(y, u);
      ghost var ys := GoRight(t, parent, Black, y);
      LookNephews(ys, u.right);
      if tmp0.right != null {
        PaintRight(tmp0.right, Black, ys, u.right);
      }
      u := u.(right := u.right.(right := Painted(u.right.right, Black)));
      Ascend(ys, u.right);
      var tmp := RotateLeft(parent, y, u);
      u := LeftRotated(u);
      AtStart(y, u);
      FitPlug(y, u);
      y, u := Start(y), Plug(y, u);
      RootAt(y, u);
    }

    /** One round of the loop when the short subtree is a right child. */
    method RemoveColorRight(elm0: Node?, parent0: Node, ghost z: Path, ghost t: Tree)
      returns (elm: Node?, parent: Node?, done: bool, ghost y: Path, ghost u: Tree, ghost turns: nat)
      requires At(z, t) && Short(z, t) && !IsRed(t) && z.GoRight? && elm0 == Root(t) && parent0 == z.node
      modifies `root, repr
      ensures At(y, u) && elm == Root(u) && Start(y) == Start(z)
      ensures if done then y.Top? && RedBlack(u) else Short(y, u) && parent == Parent(y)
      ensures !done && !IsRed(u) ==> Depth(y) < Depth(z)
      ensures turns <= 3 && (!done && turns > 0 ==> IsRed(u))
    {
      hide At, Balanced, Colored, PathBalanced, PathColored, Plug;
      ShortSibling(z, t);
      y, u := z.up, Lift(z, t);
      Ascend(z, t);
      Look(y, u);
      LookLeft(y, u);
      var tmp := parent0.left;
      if tmp.color.Red? {
        ShortRedSiblingRight(z, t);
        PaintLeft(tmp, Black, y, u);
        u := u.(left := Painted(u.left, Black));
        Paint(parent0, Red, y, u);
        u := Painted(u, Red);
        tmp := RotateRight(parent0, y, u);
        ghost var z1 := GoRight(z.left.right, parent0, Red, GoRight(z.left.left, tmp, Black, y));
        Ascend(z1.up, Lift(z1, t));
        ShortSibling(z1, t);
        Ascend(z1, t);
        Look(z1.up, Lift(z1, t));
        tmp := parent0.left;
        elm, parent, done, y, u, turns := RemoveColorRightBlack(elm0, parent0, tmp, z1, t);
        turns := turns + 1;
      } else {
        elm, parent, done, y, u, turns := RemoveColorRightBlack(elm0, parent0, tmp, z, t);
      }
    }

    /** The rest of the round, with a black sibling `tmp0`. */
    method RemoveColorRightBlack(elm0: Node?, parent0: Node, tmp0: Node, ghost z: Path, ghost t: Tree)
      returns (elm: Node?, parent: Node?, done: bool, ghost y: Path, ghost u: Tree, ghost turns: nat)
      requires At(z, t) && Short(z, t) && !IsRed(t) && z.GoRight? && elm0 == Root(t) && parent0 == z.node
      requires z.left.Branch? && tmp0 == z.left.node && z.left.color.Black?
      modifies `root, repr
      ensures At(y, u) && elm == Root(u) && Start(y) == Start(z)
      ensures if done then y.Top? && RedBlack(u) else Short(y, u) && parent == Parent(y)
      ensures !done ==> y == z.up && u.Branch? && u.color == z.color
      ensures turns <= if done then 2 else 0
    {
      hide At, Balanced, Colored, PathBalanced, PathColored, Plug;
      elm, parent, turns := elm0, parent0, 0;
      y, u := z.up, Lift(z, t);
      Ascend(z, t);
      Look(y, u);
      LookLeft(y, u);
      Descend(y, u);
      LookNephews(GoLeft(y, z.node, z.color, t), z.left);
      var tmp := tmp0;
      if (tmp.right == null || tmp.right.color.Black?) && (tmp.left == null || tmp.left.color.Black?) {
        ShortReddenedRight(z, t);
        PaintLeft(tmp, Red, y, u);
        u := u.(left := Painted(u.left, Red));
        elm := parent;
        Look(y, u);
        parent := elm.parent;
        done := false;
      } else {
        ghost var z1 := z;
        if tmp.left == null || tmp.left.color.Black? {
          z1 := TurnNearRight(tmp, z, t);
          turns := 1;
          Ascend(z1, t);
          Look(y, Lift(z1, t));
          tmp := parent.left;
        }
        y, u := RemoveColorFarRight(parent, tmp, z1, t);
        turns := turns + 1;
        elm := root;
        done := true;
      }
    }

    /** The near child of the sibling is red and the far one is not. */
    method TurnNearRight(tmp: Node, ghost z: Path, ghost t: Tree) returns (ghost z1: Path)
      requires At(z, t) && Short(z, t) && !IsRed(t) && z.GoRight? && z.left.Branch? && tmp == z.left.node
      requires z.left.color.Black? && IsRed(z.left.right) && !IsRed(z.left.left)
      modifies `root, repr
      ensures At(z1, t) && Short(z1, t) && z1.GoRight? && z1 == z.(left := z1.left)
      ensures z1.left.Branch? && z1.left.color.Black? && IsRed(z1.left.left)
    {
      hide At, Balanced, Colored, PathBalanced, PathColored, Plug;
      ShortNearRight(z, t);
      Ascend(z, t);
      ghost var y, u := GoLeft(z.up, z.node, z.color, t), z.left;
      Descend(z.up, Lift(z, t));
      LookNephews(y, u);
      Look(y, u);
      var oright := tmp.right;
      if oright != null {
        PaintRight(oright, Black, y, u);
      }
      u := u.(right := Painted(u.right, Black));
      Paint(tmp, Red, y, u);
      u := Painted(u, Red);
      oright := RotateLeft(tmp, y, u);
      z1 := z.(left := LeftRotated(u));
      Ascend(y, LeftRotated(u));
      Ascend(z1, t);
    }

    /** The far child of the sibling is red: one more rotation repairs the tree. */
    method RemoveColorFarRight(parent: Node, tmp0: Node, ghost z: Path, ghost t: Tree)
      returns (ghost y: Path, ghost u: Tree)
      requires At(z, t) && Short(z, t) && !IsRed(t) && z.GoRight? && parent == z.node
      requires z.left.Branch? && tmp0 == z.left.node && z.left.color.Black? && IsRed(z.left.left)
      modifies `root, repr
      ensures At(y, u) && y == Start(z) && RedBlack(u) && root == Root(u)
    {
      hide At, Balanced, Colored, PathBalanced, PathColored, Plug;
      ShortFarRight(z, t);
      y, u := z.up, Lift(z, t);
      Ascend(z, t);
      Look(y, u);
      LookLeft(y, u);
      PaintLeft(tmp0, parent.color, y, u);
      u := u.(left := Painted(u.left, z.color));
      Paint(parent, Black, y, u);
      u := Painted(u, Black);
      Descend(y, u);
      ghost var ys := GoLeft(y, parent, Black, t);
      LookNephews(ys, u.left);
      if tmp0.left != null {
        PaintLeft(tmp0.left, Black, ys, u.left);
      }
      u := u.(left := u.left.(left := Painted(u.left.left, Black)));
      Ascend(ys, u.left);
      var tmp := RotateRight(parent, y, u);
      u := RightRotated(u);
      AtStart(y, u);
      FitPlug(y, u);
      y, u := Start(y), Plug(y, u);
      RootAt(y, u);
    }

    // ---------- from the whole tree to a place in it, and back ----------

    lemma Enter(k: int) returns (z: Path)
      requires Valid()
      ensures z.Top? && At(z, shape) && Lo(z) < k < Hi(z)
    {
      var lo, hi := Bounds(contents, k, Key);
      z := Top(lo, hi);
      AscendingOrdered(shape, lo, hi);
    }

    /** A tree in order, linked and coloured as it should be is valid. */
    ghost method Leave(z: Path, t: Tree)
      requires z.Top? && At(z, t) && RedBlack(t)
      modifies `shape, `repr
      ensures Valid() && shape == t
      ensures repr == set n | n in contents
    {
      OrderedAscending(t, Lo(z), Hi(z));
      NodesInOrder(t);
      shape := t;
      repr := Nodes(t);
    }

    lemma ReprIsContents()
      requires Valid()
      ensures repr == set n | n in contents
    {
      NodesInOrder(shape);
    }

    lemma {:induction false} Locate(z: Path, t: Tree, n: Node) returns (y: Path, u: Tree)
      requires At(z, t) && n in Nodes(t)
      ensures At(y, u) && u.Branch? && u.node == n
      ensures Plug(y, u) == Plug(z, t) && Start(y) == Start(z)
      decreases t
    {
      hide At;
      Descend(z, t);
      if n == t.node {
        y, u := z, t;
      } else if n in Nodes(t.left) {
        y, u := Locate(GoLeft(z, t.node, t.color, t.right), t.left, n);
      } else {
        y, u := Locate(GoRight(t.left, t.node, t.color, z), t.right, n);
      }
    }

    // ---------- lookups ----------

    /** What is known on the way down to the key `k`, `steps` nodes deep. */
    ghost predicate Searching(z: Path, t: Tree, k: int, steps: nat)
      reads this, repr
    {
      && At(z, t) && Plug(z, t) == shape && RedBlack(shape) && Ascending(contents, Key)
      && Lo(z) < k < Hi(z) && steps == Depth(z)
    }

    lemma StartSearch(k: int) returns (z: Path)
      requires Valid()
      ensures Searching(z, shape, k, 0) && root == Root(shape) && z.Top?
    {
      z := Enter(k);
    }

    lemma SearchDown(z: Path, t: Tree, k: int, steps: nat)
      requires Searching(z, t, k, steps) && t.Branch?
      ensures t.node in contents && t.node.left == Root(t.left) && t.node.right == Root(t.right)
      ensures t.node in repr
      ensures k < t.node.key ==> Searching(GoLeft(z, t.node, t.color, t.right), t.left, k, steps + 1)
      ensures k > t.node.key ==> Searching(GoRight(t.left, t.node, t.color, z), t.right, k, steps + 1)
      ensures Logarithmic(steps + 1, |contents|)
    {
      hide At, RedBlack, InOrder, Logarithmic, Ascending;
      Look(z, t);
      Descend(z, t);
      PlaceContents(z, t);
      SearchBound(z, t);
    }

    /** What stands at a place stands in the tree. */
    lemma PlaceContents(z: Path, t: Tree)
      requires At(z, t)
      ensures InOrder(Plug(z, t)) == contents
      ensures t.Branch? ==> t.node in contents
    {
      hide PathLinked, PathOrdered, Linked, Ordered;
      InOrderPlug(z, t);
    }

    lemma SearchBound(z: Path, t: Tree)
      requires Plug(z, t) == shape && InOrder(shape) == contents && RedBlack(shape)
      ensures Logarithmic(Depth(z) + if t.Leaf? then 0 else 1, |contents|)
    {
      hide Logarithmic;
      var d := Depth(z) + if t.Leaf? then 0 else 1;
      DepthByHeight(z, t);
      HeightBound(shape);
      LogarithmicDown(d, Height(shape), |contents|);
    }

    /** At a leaf, the key is found to be missing, and the leaf is where it belongs. */
    lemma SearchEnd(z: Path, k: int, steps: nat)
      requires Searching(z, Leaf, k, steps)
      ensures contents == Before(z) + After(z)
      ensures forall n <- Before(z) :: n.key < k
      ensures forall n <- After(z) :: k < n.key
      ensures forall n <- contents :: n.key != k
      ensures Logarithmic(steps, |contents|) && Ascending(contents, Key)
    {
      hide Linked, PathLinked, RedBlack;
      InOrderPlug(z, Leaf);
      PathKeys(z);
      SearchBound(z, Leaf);
    }

    /** RB_FIND: the element with the key of `elm`, in `steps` comparisons. */
    method Find(elm: Node) returns (res: Node?, ghost steps: nat)
      requires Valid()
      ensures res != null ==> res in contents && res.key == elm.key
      ensures res == null ==> forall n <- contents :: n.key != elm.key
      ensures Logarithmic(steps, |contents|)
    {
      ghost var t, z := shape, Top(0, 0);
      z := StartSearch(elm.key);
      hide Searching, Valid, Logarithmic, Before, After;
      var tmp := root;
      steps := 0;
      while tmp != null
        invariant Searching(z, t, elm.key, steps) && tmp == Root(t)
        decreases t
      {
        SearchDown(z, t, elm.key, steps);
        steps := steps + 1;
        var comp := Cmp(elm, tmp);
        if comp < 0 {
          tmp := tmp.left;
          z, t := GoLeft(z, t.node, t.color, t.right), t.left;
        } else if comp > 0 {
          tmp := tmp.right;
          z, t := GoRight(t.left, t.node, t.color, z), t.right;
        } else {
          return tmp, steps;
        }
      }
      SearchEnd(z, elm.key, steps);
      res := null;
    }

    /** RB_NFIND: the first element not below the key of `elm`. */
    method NFind(elm: Node) returns (res: Node?, ghost steps: nat)
      requires Valid()
      ensures res == null ==> forall n <- contents :: n.key < elm.key
      ensures res != null ==> LeastNotBelow(contents, elm.key, res)
      ensures Logarithmic(steps, |contents|)
    {
      ghost var t, z := shape, Top(0, 0);
      z := StartSearch(elm.key);
      hide Searching, Valid, Logarithmic, Before, After, FirstAfter, LeastNotBelow;
      var tmp := root;
      res := null;
      steps := 0;
      FirstAfterStep(z, t);
      while tmp != null
        invariant Searching(z, t, elm.key, steps) && tmp == Root(t) && res == FirstAfter(z)
        decreases t
      {
        SearchDown(z, t, elm.key, steps);
        FirstAfterStep(z, t);
        steps := steps + 1;
        var comp := Cmp(elm, tmp);
        if comp < 0 {
          res := tmp;
          tmp := tmp.left;
          z, t := GoLeft(z, t.node, t.color, t.right), t.left;
        } else if comp > 0 {
          tmp := tmp.right;
          z, t := GoRight(t.left, t.node, t.color, z), t.right;
        } else {
          FoundIsLeast(tmp, elm.key);
          return tmp, steps;
        }
      }
      SearchEnd(z, elm.key, steps);
      FirstAfterIsLeast(z, elm.key);
    }

    lemma FoundIsLeast(n: Node, k: int)
      requires n in contents && n.key == k
      ensures LeastNotBelow(contents, k, n)
    {
    }

    lemma FirstAfterIsLeast(z: Path, k: int)
      requires contents == Before(z) + After(z) && Ascending(contents, Key)
      requires forall n <- Before(z) :: n.key < k
      requires forall n <- After(z) :: k < n.key
      ensures FirstAfter(z) == null ==> forall n <- contents :: n.key < k
      ensures FirstAfter(z) != null ==> LeastNotBelow(contents, k, FirstAfter(z))
    {
      hide Before, After, Ascending, LeastNotBelow;
      FirstOfRest(Before(z), After(z), k);
    }

    // ---------- RB_INSERT ----------

    /** Hangs `elm` below `parent`, on the side the last comparison chose. */
    method LinkChild(parent: Node?, elm: Node, comp: int, ghost z: Path)
      requires PathNodes(z) <= repr && PathOrdered(z) && PathLinked(z, null, root)
      requires parent == Parent(z) && (z.GoLeft? ==> comp < 0) && (z.GoRight? ==> comp > 0)
      modifies `root, PathNodes(z)
      ensures PathLinked(z, elm, root)
    {
      if parent != null {
        if comp < 0 {
          parent.left := elm;
        } else {
          parent.right := elm;
        }
      } else {
        root := elm;
      }
    }

    /** RB_SET, and the link from above. */
    method Attach(parent: Node?, elm: Node, comp: int, ghost z: Path)
      requires At(z, Leaf) && Lo(z) < elm.key < Hi(z)
      requires parent == Parent(z) && (z.GoLeft? ==> comp < 0) && (z.GoRight? ==> comp > 0)
      modifies `root, `contents, `repr, repr, elm
      ensures repr == old(repr) + {elm} && contents == Before(z) + [elm] + After(z)
      ensures At(z, Branch(Leaf, elm, Red, Leaf))
    {
      hide PathLinked, PathOrdered, PathNodes, Plug;
      elm.parent := parent;
      elm.left, elm.right := null, null;
      elm.color := Red;
      LinkChild(parent, elm, comp, z);
      ghost var t := Branch(Leaf, elm, Red, Leaf);
      contents := Before(z) + [elm] + After(z);
      repr := repr + {elm};
      InOrderPlug(z, t);
      assert InOrder(t) == [elm] && Nodes(t) == {elm} && Linked(t, parent);
      assert Ordered(t, Lo(z), Hi(z)) && PathNodes(z) <= repr && PathLinked(z, elm, root);
    }

    /** RB_INSERT: puts `elm` in, or returns the element that already has its key. */
    method Insert(elm: Node) returns (res: Node?, ghost work: Work)
      requires Valid()
      modifies this, repr, elm
      ensures Valid()
      ensures res == null <==> forall n <- old(contents) :: n.key != elm.key
      ensures res != null ==> res in contents && res.key == elm.key
      ensures res != null ==> unchanged(this) && unchanged(repr) && unchanged(elm)
      ensures res == null ==> Inserted(old(contents), elm, contents) && repr == old(repr) + {elm}
      ensures Cheap(work, |old(contents)|, 2)
    {
      ghost var t, z := shape, Top(0, 0);
      ghost var steps, rounds, turns := 0, 0, 0;
      z := StartSearch(elm.key);
      hide Searching, Valid, Logarithmic, Before, After, Inserted;
      LogarithmicStart(|contents|);
      var tmp := root;
      var parent: Node? := null;
      var comp := 0;
      while tmp != null
        invariant Searching(z, t, elm.key, steps) && tmp == Root(t)
        invariant parent == Parent(z) && (z.GoLeft? ==> comp < 0) && (z.GoRight? ==> comp > 0)
        modifies {}
        decreases t
      {
        SearchDown(z, t, elm.key, steps);
        steps := steps + 1;
        parent := tmp;
        comp := Cmp(elm, parent);
        if comp < 0 {
          tmp := tmp.left;
          z, t := GoLeft(z, t.node, t.color, t.right), t.left;
        } else if comp > 0 {
          tmp := tmp.right;
          z, t := GoRight(t.left, t.node, t.color, z), t.right;
        } else {
          return tmp, Work(steps, 0, 0);
        }
      }
      SearchEnd(z, elm.key, steps);
      ReprIsContents();
      rounds, turns := InsertAt(parent, elm, comp, z, steps);
      LogarithmicDown(rounds, steps, |old(contents)|);
      return null, Work(steps, rounds, turns);
    }

    method InsertAt(parent: Node?, elm: Node, comp: int, ghost z: Path, ghost steps: nat)
      returns (ghost rounds: nat, ghost turns: nat)
      requires Searching(z, Leaf, elm.key, steps) && contents == Before(z) + After(z)
      requires parent == Parent(z) && (z.GoLeft? ==> comp < 0) && (z.GoRight? ==> comp > 0)
      requires repr == set n | n in contents
      modifies this, repr, elm
      ensures Valid() && Inserted(old(contents), elm, contents) && repr == old(repr) + {elm}
      ensures rounds <= steps && turns <= 2
    {
      FitPlug(z, Leaf);
      InsertedBetween(Before(z), elm, After(z));
      hide At, RedBlack, Plug, Before, After, Valid, Inserted, PathColored;
      Attach(parent, elm, comp, z);
      ghost var t;
      t, rounds, turns := InsertColor(elm, z, Branch(Leaf, elm, Red, Leaf));
      Leave(Start(z), t);
      InsertedElements(old(contents), elm, contents);
    }

    // ---------- RB_REMOVE ----------

    /** Puts the only child of `elm`, if there is one, in the place of `elm`. */
    method Splice(elm: Node, child: Node?, parent: Node?, ghost z: Path, ghost t: Tree, ghost s: Tree)
      requires At(z, t) && t.Branch? && elm == t.node && child == Root(s) && parent == Parent(z)
      requires (t.left.Leaf? && s == t.right) || (t.right.Leaf? && s == t.left)
      modifies `root, `contents, repr
      ensures At(z, s) && contents == Before(z) + InOrder(s) + After(z)
      ensures unchanged(elm)
    {
      hide Placed, Linked, PathLinked, Ordered, PathOrdered, Nodes, PathNodes, InOrder, Plug, Before, After;
      SplicedPieces(z, t, s);
      Adopt(child, parent, s, elm, Lo(z), Hi(z));
      ReplaceChild(parent, elm, child, z);
      contents := Before(z) + InOrder(s) + After(z);
    }

    lemma SplicedPieces(z: Path, t: Tree, s: Tree)
      requires At(z, t) && t.Branch?
      requires (t.left.Leaf? && s == t.right) || (t.right.Leaf? && s == t.left)
      ensures Placed(z, s, Before(z) + InOrder(s) + After(z), repr)
      ensures Nodes(s) <= repr && PathNodes(z) <= repr && PathOrdered(z) && Ordered(s, Lo(z), Hi(z))
      ensures Linked(s, t.node) && t.node !in Nodes(s) && Lo(z) < t.node.key < Hi(z)
      ensures PathLinked(z, t.node, root) && t.node in repr
    {
      hide PathOrdered, PathNodes, PathLinked, Plug, InOrder;
      LinkedStep(t.left, t.node, t.color, t.right, Parent(z));
      var k := t.node.key;
      OrderedWiden(s, if t.left.Leaf? then k else Lo(z), if t.left.Leaf? then Hi(z) else k, Lo(z), Hi(z));
      InOrderPlug(z, s);
    }

    /** Copies the link record of `gone` into `elm` and points the neighbours of `gone`
        at `elm`. */
    method TakePlace(gone: Node, elm: Node, ghost z: Path, ghost t: Tree)
      requires At(z, t) && t.Branch? && gone == t.node && t.left.Branch?
      requires elm in repr && Lo(z) < gone.key < elm.key < Hi(z) && Ordered(t.right, elm.key, Hi(z))
      modifies `root, `contents, repr
      ensures At(z, t.(node := elm))
      ensures contents == Before(z) + (InOrder(t.left) + [elm] + InOrder(t.right)) + After(z)
    {
      hide Placed, Linked, PathLinked, Ordered, PathOrdered, Nodes, PathNodes, InOrder, Plug, Before, After;
      TakenPieces(z, t, elm);
      TakeLinks(gone, elm, z, t);
      assert gone.left != null;
      Adopt(gone.left, elm, t.left, gone, Lo(z), gone.key);
      Adopt(gone.right, elm, t.right, gone, elm.key, Hi(z));
      contents := Before(z) + (InOrder(t.left) + [elm] + InOrder(t.right)) + After(z);
      LinkedStep(t.left, elm, t.color, t.right, Parent(z));
    }

    /** `elm` takes the place of `gone` below the parent; the subtrees still name `gone`. */
    ghost predicate Taking(z: Path, t: Tree, elm: Node, hole: Node)
      reads `root, `repr, repr
      requires t.Branch?
    {
      && Nodes(t.left) <= repr && Nodes(t.right) <= repr && PathNodes(z) <= repr
      && t.node in repr && elm in repr && t.node !in Nodes(t.left) && t.node !in Nodes(t.right)
      && Lo(z) < t.node.key < elm.key < Hi(z) && PathOrdered(z)
      && Ordered(t.left, Lo(z), t.node.key) && Ordered(t.right, elm.key, Hi(z))
      && t.node.left == Root(t.left) && t.node.right == Root(t.right)
      && t.node.parent == Parent(z) && t.node.color == t.color
      && Linked(t.left, t.node) && Linked(t.right, t.node) && PathLinked(z, hole, root)
    }

    lemma TakenPieces(z: Path, t: Tree, elm: Node)
      requires At(z, t) && t.Branch? && elm in repr
      requires Lo(z) < t.node.key < elm.key < Hi(z) && Ordered(t.right, elm.key, Hi(z))
      ensures Taking(z, t, elm, t.node)
      ensures Placed(z, t.(node := elm), Before(z) + (InOrder(t.left) + [elm] + InOrder(t.right)) + After(z), repr)
    {
      hide PathOrdered, PathNodes, PathLinked, Plug;
      LinkedStep(t.left, t.node, t.color, t.right, Parent(z));
      OrderedWiden(t.left, Lo(z), t.node.key, Lo(z), elm.key);
      InOrderPlug(z, t.(node := elm));
    }

    /** The record of `gone` is copied, and the link from above redirected. */
    method TakeLinks(gone: Node, elm: Node, ghost z: Path, ghost t: Tree)
      requires t.Branch? && gone == t.node && Taking(z, t, elm, gone)
      modifies `root, elm, PathNodes(z)
      ensures Taking(z, t, elm, elm)
      ensures elm.left == Root(t.left) && elm.right == Root(t.right)
      ensures elm.parent == Parent(z) && elm.color == t.color
    {
      hide Linked, PathLinked, Ordered, PathOrdered, Nodes, PathNodes;
      elm.left, elm.right := gone.left, gone.right;
      elm.parent, elm.color := gone.parent, gone.color;
      ReplaceChild(gone.parent, gone, elm, z);
    }

    /** The place of an element of a valid tree. */
    lemma PlaceOf(elm: Node) returns (z: Path, t: Tree)
      requires Valid() && elm in repr
      ensures At(z, t) && Fit(z, t) && t.Branch? && t.node == elm
      ensures elm.left == Root(t.left) && elm.right == Root(t.right)
      ensures elm.parent == Parent(z) && elm.color == t.color
      ensures contents == Before(z) + (InOrder(t.left) + [elm] + InOrder(t.right)) + After(z)
    {
      var y := Enter(elm.key);
      z, t := Locate(y, shape, elm);
      Look(z, t);
      FitPlug(z, t);
      InOrderPlug(z, t);
    }

    /** RB_REMOVE: takes the element `elm` out and returns it. */
    method Remove(elm: Node) returns (res: Node, ghost work: Work)
      requires Valid() && elm in repr
      modifies this, repr
      ensures Valid() && res == elm
      ensures Inserted(contents, elm, old(contents)) && repr == old(repr) - {elm}
      ensures Cheap(work, |old(contents)|, 3)
    {
      hide At, Fit, Short, Valid, Inserted, InOrder, Before, After, Logarithmic;
      ghost var z, t := PlaceOf(elm);
      PlaceDepth(z, t);
      ReprIsContents();
      ValidAscending();
      res := elm;
      var child: Node?;
      if elm.left == null {
        child := elm.right;
      } else if elm.right == null {
        child := elm.left;
      } else {
        work := RemoveInner(elm, z, t);
        RemovedRepr(elm, old(contents), old(repr));
        return;
      }
      var parent, color := elm.parent, elm.color;
      ghost var s := if t.left.Leaf? then t.right else t.left;
      SplicedFit(z, t, s);
      Splice(elm, child, parent, z, t, s);
      SplicedContents(z, t, s);
      ghost var rounds, turns := RemoveEnd(parent, child, color, z, s);
      RemovedRepr(elm, old(contents), old(repr));
      LogarithmicStart(|old(contents)|);
      LogarithmicDown(rounds, Depth(z), |old(contents)|);
      work := Work(0, rounds, turns);
    }

    /** No place of a valid tree is deeper than its height. */
    lemma PlaceDepth(z: Path, t: Tree)
      requires At(z, t) && Fit(z, t)
      ensures Logarithmic(Depth(z) + if t.Leaf? then 0 else 1, |contents|)
      ensures Logarithmic(Depth(z), |contents|)
    {
      hide Logarithmic, At, Fit, RedBlack, InOrder, Plug;
      var d := Depth(z) + if t.Leaf? then 0 else 1;
      var u := Plug(z, t);
      PlaceContents(z, t);
      FitPlug(z, t);
      DepthByHeight(z, t);
      HeightBound(u);
      LogarithmicDown(d, Height(u), |contents|);
      LogarithmicDown(Depth(z), Height(u), |contents|);
    }

    lemma ValidAscending()
      requires Valid()
      ensures Ascending(contents, Key)
    {
    }

    lemma RemovedRepr(elm: Node, was: seq<Node>, had: set<Node>)
      requires had == (set n | n in was) && Ascending(was, Key) && Inserted(contents, elm, was)
      requires repr == set n | n in contents
      ensures repr == had - {elm}
    {
      RemovedElements(contents, elm, was);
    }

    lemma SplicedContents(z: Path, t: Tree, s: Tree)
      requires t.Branch? && ((t.left.Leaf? && s == t.right) || (t.right.Leaf? && s == t.left))
      ensures Inserted(Before(z) + InOrder(s) + After(z), t.node,
                       Before(z) + (InOrder(t.left) + [t.node] + InOrder(t.right)) + After(z))
    {
      hide Inserted, Before, After;
      InsertedInside(Before(z), InOrder(t.left), t.node, InOrder(t.right), After(z));
      assert InOrder(t.left) + InOrder(t.right) == InOrder(s);
    }

    /** After the link surgery: a black node that went leaves its place short. */
    method RemoveEnd(parent: Node?, child: Node?, color: Color, ghost z: Path, ghost s: Tree)
      returns (ghost rounds: nat, ghost turns: nat)
      requires At(z, s) && parent == Parent(z) && child == Root(s)
      requires if color.Red? then Fit(z, s) else Short(z, s)
      modifies `root, `shape, `repr, repr
      ensures Valid() && repr == set n | n in contents
      ensures rounds <= Depth(z) && turns <= 3
    {
      AtStart(z, s);
      FitPlug(z, s);
      hide At, Plug;
      ghost var t := Plug(z, s);
      rounds, turns := 0, 0;
      if color.Black? {
        t, rounds, turns := RemoveColor(parent, child, z, s);
      }
      Leave(Start(z), t);
    }

    /** Two children: the minimum of the right subtree takes the place of `gone`. */
    method RemoveInner(gone: Node, ghost z: Path, ghost t: Tree) returns (ghost work: Work)
      requires t.Branch? && At(z, t) && Fit(z, t) && t.left.Branch? && t.right.Branch? && t.node == gone
      requires gone.right == t.right.node
      requires contents == Before(z) + (InOrder(t.left) + [gone] + InOrder(t.right)) + After(z)
      modifies this, repr
      ensures Valid() && Inserted(contents, gone, old(contents))
      ensures repr == set n | n in contents
      ensures Cheap(work, |old(contents)|, 3)
    {
      hide At, Fit, Short, Valid, Inserted, InOrder, Before, After, Logarithmic;
      var elm := gone.right;
      ghost var steps := 0;
      ghost var l, c := t.left, t.color;
      ghost var spine, u := Top(0, 0), t.right;
      Descend(z, t);
      FitDown(z, l, gone, c, u);
      Look(GoRight(l, gone, c, z), u);
      assert LeftSpine(spine);
      var left := elm.left;
      while left != null
        invariant u.Branch? && elm == u.node && left == Root(u.left)
        invariant At(Below(spine, l, gone, c, z), u) && Fit(Below(spine, l, gone, c, z), u)
        invariant LeftSpine(spine) && Plug(spine, u) == t.right && steps == Depth(spine)
        modifies {}
        decreases u
      {
        Descend(Below(spine, l, gone, c, z), u);
        FitDown(Below(spine, l, gone, c, z), u.left, u.node, u.color, u.right);
        elm := left;
        spine, u := GoLeft(spine, u.node, u.color, u.right), u.left;
        Look(Below(spine, l, gone, c, z), u);
        left := elm.left;
        steps := steps + 1;
      }
      PlaceDepth(Below(spine, l, gone, c, z), u);
      JoinDepth(spine, GoRight(l, gone, c, z));
      ghost var rounds, turns := RemoveMinimum(gone, elm, z, t, spine, u);
      LogarithmicDown(steps, Depth(Below(spine, l, gone, c, z)), |old(contents)|);
      LogarithmicDown(rounds, Depth(Below(spine, l, gone, c, z)), |old(contents)|);
      work := Work(steps, rounds, turns);
    }

    /** Unlinks the minimum `elm` and puts it in the place of `gone`. */
    method RemoveMinimum(gone: Node, elm: Node, ghost z: Path, ghost t: Tree, ghost spine: Path, ghost u: Tree)
      returns (ghost rounds: nat, ghost turns: nat)
      requires t.Branch? && t.left.Branch? && u.Branch? && u.left.Leaf? && elm == u.node && t.node == gone
      requires LeftSpine(spine) && Plug(spine, u) == t.right
      requires At(Below(spine, t.left, gone, t.color, z), u) && Fit(Below(spine, t.left, gone, t.color, z), u)
      requires contents == Before(z) + (InOrder(t.left) + [gone] + InOrder(t.right)) + After(z)
      modifies this, repr
      ensures Valid() && Inserted(contents, gone, old(contents))
      ensures repr == set n | n in contents
      ensures rounds <= Depth(Below(spine, t.left, gone, t.color, z)) && turns <= 3
    {
      hide At, Fit, Short, Valid, Inserted, InOrder, Before, After, Plug, LeftSpine, Ordered, PathOrdered, Nodes;
      ghost var l, c, s := t.left, t.color, u.right;
      ghost var rest := Plug(spine, s);
      MinimumPlace(z, t, spine, u);
      MinimumFit(z, t, spine, u);
      MinimumContents(z, t, spine, u);
      var child, parent, color := elm.right, elm.parent, elm.color;
      Splice(elm, child, parent, Below(spine, l, gone, c, z), u, s);
      if elm.parent == gone {
        parent := elm;
      }
      AtJoin(spine, GoRight(l, gone, c, z), s);
      Descend(z, t.(right := rest));
      TakePlace(gone, elm, z, t.(right := rest));
      Descend(z, t.(node := elm, right := rest));
      AtJoin(spine, GoRight(l, elm, c, z), s);
      JoinDepth(spine, GoRight(l, gone, c, z));
      JoinDepth(spine, GoRight(l, elm, c, z));
      rounds, turns := RemoveEnd(parent, child, color, Below(spine, l, elm, c, z), s);
    }

    lemma {:induction false} AtJoin(inner: Path, outer: Path, t: Tree)
      ensures At(Join(inner, outer), t) <==> At(outer, Plug(inner, t))
      decreases inner
    {
      hide At;
      if inner.Top? {
      } else {
        Ascend(Join(inner, outer), t);
        AtJoin(inner.up, outer, Lift(inner, t));
      }
    }

    /** Everything that is known about the minimum before it is moved. */
    lemma MinimumPlace(z: Path, t: Tree, spine: Path, u: Tree)
      requires t.Branch? && u.Branch? && u.left.Leaf? && LeftSpine(spine)
      requires At(Below(spine, t.left, t.node, t.color, z), u)
      ensures
        var y, m := Below(spine, t.left, t.node, t.color, z), u.node;
        && m in repr && m.right == Root(u.right) && m.parent == Parent(y) && m.color == u.color
        && (Parent(y) == t.node <==> spine.Top?)
      ensures Lo(z) < t.node.key < u.node.key < Hi(z)
      ensures Ordered(Plug(spine, u.right), u.node.key, Hi(z))
    {
      hide Linked, PathLinked, Ordered, PathOrdered, LeftSpine, Plug, Join;
      Look(Below(spine, t.left, t.node, t.color, z), u);
      MinimumOrder(z, t, spine, u);
    }

    // ---------- RB_NEXT and RB_PREV ----------

    /** RB_NEXT: the element after `elm0`, found through its links alone. */
    method Next(elm0: Node) returns (res: Node?, ghost steps: nat)
      requires Valid() && elm0 in repr
      ensures Successor(contents, elm0, res, null)
      ensures Logarithmic(steps, |contents|)
    {
      hide At, Valid, Successor, InOrder, Before, After, Fit, Logarithmic;
      var elm := elm0;
      ghost var z, t := PlaceOf(elm);
      steps := 1;
      ghost var rest := InOrder(t.right) + After(z);
      NextGoal(z, t);
      if elm.right != null {
        Descend(z, t);
        FitDown(z, t.left, t.node, t.color, t.right);
        elm := elm.right;
        ghost var y, u := GoRight(t.left, t.node, t.color, z), t.right;
        AfterSide(y);
        Look(y, u);
        while elm.left != null
          invariant At(y, u) && Fit(y, u) && u.Branch? && elm == u.node && elm.left == Root(u.left)
          invariant steps <= Depth(y)
          invariant InOrder(u) + After(y) == rest
          decreases u
        {
          Descend(y, u);
          AfterStep(y, u);
          FitDown(y, u.left, u.node, u.color, u.right);
          elm := elm.left;
          steps := steps + 1;
          y, u := GoLeft(y, u.node, u.color, u.right), u.left;
          Look(y, u);
        }
        FirstOf(u, After(y));
        PlaceDepth(y, u);
        LogarithmicDown(steps, Depth(y), |contents|);
        return elm, steps;
      } else {
        ghost var y, u := z, t;
        PlaceDepth(z, t);
        EmptyOrder();
        assert rest == After(y);
        if !y.Top? { LookUp(y, u); }
        AfterSide(y);
        if elm.parent != null && elm == elm.parent.left {
          elm := elm.parent;
          LogarithmicDown(1, Depth(z) + 1, |contents|);
          return elm, steps;
        } else {
          while elm.parent != null && elm == elm.parent.right
            invariant At(y, u) && u.Branch? && elm == u.node && elm.parent == Parent(y)
            invariant steps + Depth(y) == Depth(z) + 1
            invariant After(y) == rest
            invariant !y.Top? ==> (elm == y.node.left <==> y.GoLeft?) && (elm == y.node.right <==> y.GoRight?)
            decreases y
          {
            Ascend(y, u);
            AfterSide(y);
            elm := elm.parent;
            steps := steps + 1;
            y, u := y.up, Lift(y, u);
            Look(y, u);
            if !y.Top? { LookUp(y, u); }
          }
          AfterSide(y);
          LogarithmicDown(steps, Depth(z) + 1, |contents|);
          return elm.parent, steps;
        }
      }
    }

    lemma NextGoal(z: Path, t: Tree)
      requires t.Branch? && contents == Before(z) + (InOrder(t.left) + [t.node] + InOrder(t.right)) + After(z)
      ensures
        var rest := InOrder(t.right) + After(z);
        Successor(contents, t.node, if rest == [] then null else rest[0], null)
    {
      hide Successor, Before, After;
      SuccessorIntro(Before(z) + InOrder(t.left), t.node, InOrder(t.right) + After(z), null);
      assert contents == (Before(z) + InOrder(t.left)) + [t.node] + (InOrder(t.right) + After(z));
    }

    /** The neighbours of a subtree in the in-order sequence are the frames just above it. */
    lemma AfterSide(z: Path)
      ensures z.Top? ==> After(z) == [] && Before(z) == []
      ensures z.GoLeft? ==> After(z) != [] && After(z)[0] == z.node && Before(z) == Before(z.up)
      ensures z.GoRight? ==> Before(z) != [] && Before(z)[|Before(z)| - 1] == z.node && After(z) == After(z.up)
    {
    }

    lemma EmptyOrder()
      ensures InOrder(Leaf) == []
    {
    }

    lemma FirstOf(u: Tree, rest: seq<Node>)
      requires u.Branch? && u.left.Leaf?
      ensures InOrder(u) + rest != [] && (InOrder(u) + rest)[0] == u.node
    {
    }

    lemma LastOf(u: Tree, rest: seq<Node>)
      requires u.Branch? && u.right.Leaf?
      ensures rest + InOrder(u) != [] && (rest + InOrder(u))[|rest + InOrder(u)| - 1] == u.node
    {
    }

    /** RB_PREV: the element before `elm0`. */
    method Prev(elm0: Node) returns (res: Node?, ghost steps: nat)
      requires Valid() && elm0 in repr
      ensures Predecessor(contents, elm0, res, null)
      ensures Logarithmic(steps, |contents|)
    {
      hide At, Valid, Predecessor, InOrder, Before, After, Fit, Logarithmic;
      var elm := elm0;
      ghost var z, t := PlaceOf(elm);
      steps := 1;
      ghost var rest := Before(z) + InOrder(t.left);
      PrevGoal(z, t);
      if elm.left != null {
        Descend(z, t);
        FitDown(z, t.left, t.node, t.color, t.right);
        elm := elm.left;
        ghost var y, u := GoLeft(z, t.node, t.color, t.right), t.left;
        AfterSide(y);
        Look(y, u);
        while elm.right != null
          invariant At(y, u) && Fit(y, u) && u.Branch? && elm == u.node && elm.right == Root(u.right)
          invariant steps <= Depth(y)
          invariant Before(y) + InOrder(u) == rest
          decreases u
        {
          Descend(y, u);
          AfterStep(y, u);
          FitDown(y, u.left, u.node, u.color, u.right);
          elm := elm.right;
          steps := steps + 1;
          y, u := GoRight(u.left, u.node, u.color, y), u.right;
          Look(y, u);
        }
        LastOf(u, Before(y));
        PlaceDepth(y, u);
        LogarithmicDown(steps, Depth(y), |contents|);
        return elm, steps;
      } else {
        ghost var y, u := z, t;
        PlaceDepth(z, t);
        EmptyOrder();
        assert rest == Before(y);
        if !y.Top? { LookUp(y, u); }
        AfterSide(y);
        if elm.parent != null && elm == elm.parent.right {
          elm := elm.parent;
          LogarithmicDown(1, Depth(z) + 1, |contents|);
          return elm, steps;
        } else {
          while elm.parent != null && elm == elm.parent.left
            invariant At(y, u) && u.Branch? && elm == u.node && elm.parent == Parent(y)
            invariant steps + Depth(y) == Depth(z) + 1
            invariant Before(y) == rest
            invariant !y.Top? ==> (elm == y.node.right <==> y.GoRight?) && (elm == y.node.left <==> y.GoLeft?)
            decreases y
          {
            Ascend(y, u);
            AfterSide(y);
            elm := elm.parent;
            steps := steps + 1;
            y, u := y.up, Lift(y, u);
            Look(y, u);
            if !y.Top? { LookUp(y, u); }
          }
          AfterSide(y);
          LogarithmicDown(steps, Depth(z) + 1, |contents|);
          return elm.parent, steps;
        }
      }
    }

    lemma PrevGoal(z: Path, t: Tree)
      requires t.Branch? && contents == Before(z) + (InOrder(t.left) + [t.node] + InOrder(t.right)) + After(z)
      ensures
        var rest := Before(z) + InOrder(t.left);
        Predecessor(contents, t.node, if rest == [] then null else rest[|rest| - 1], null)
    {
      hide Predecessor, Before, After;
      PredecessorIntro(Before(z) + InOrder(t.left), t.node, InOrder(t.right) + After(z), null);
      assert contents == (Before(z) + InOrder(t.left)) + [t.node] + (InOrder(t.right) + After(z));
    }

    // ---------- RB_MINMAX ----------

    /** RB_MINMAX: the first element (`val` negative) or the last. */
    method MinMax(val: int) returns (parent: Node?, ghost steps: nat)
      requires Valid()
      ensures parent == null <==> contents == []
      ensures parent != null ==> parent == if val < 0 then contents[0] else contents[|contents| - 1]
      ensures Logarithmic(steps, |contents|)
    {
      hide At, Valid, LeftSpine, RightSpine, Fit, Logarithmic;
      ghost var t, z := shape, Top(0, 0);
      z := StartSearch(0);
      FitPlug(z, t);
      steps := 0;
      EdgeStep(z, t);
      var tmp := root;
      parent := null;
      while tmp != null
        invariant At(z, t) && Fit(z, t) && tmp == Root(t) && parent == Parent(z) && steps == Depth(z)
        invariant if val < 0 then LeftSpine(z) else RightSpine(z)
        decreases t
      {
        Descend(z, t);
        Look(z, t);
        EdgeStep(z, t);
        FitDown(z, t.left, t.node, t.color, t.right);
        steps := steps + 1;
        parent := tmp;
        if val < 0 {
          tmp := tmp.left;
          z, t := GoLeft(z, t.node, t.color, t.right), t.left;
        } else {
          tmp := tmp.right;
          z, t := GoRight(t.left, t.node, t.color, z), t.right;
        }
      }
      EdgeEnd(z);
      PlaceDepth(z, t);
    }

    lemma EdgeStep(z: Path, t: Tree)
      ensures z.Top? ==> LeftSpine(z) && RightSpine(z)
      ensures t.Branch? && LeftSpine(z) ==> LeftSpine(GoLeft(z, t.node, t.color, t.right))
      ensures t.Branch? && RightSpine(z) ==> RightSpine(GoRight(t.left, t.node, t.color, z))
    {
    }

    lemma EdgeEnd(z: Path)
      requires At(z, Leaf) && (LeftSpine(z) || RightSpine(z))
      ensures z.Top? <==> contents == []
      ensures !z.Top? && LeftSpine(z) ==> contents[0] == z.node
      ensures !z.Top? && RightSpine(z) ==> contents[|contents| - 1] == z.node
    {
      hide PathLinked, PathOrdered, Plug, Before, After;
      InOrderPlug(z, Leaf);
      SpineEnds(z);
    }
  }
}
