/**
  The shape of a red-black tree, as a value: trees, and paths from a subtree up to
  the root, over the nodes whose links the heap methods rewrite.
 */
module RedBlackShape {
  import opened Arithmetic
  import opened Sequences

  datatype Color = Black | Red

  /** One element, with the link record that RB_ENTRY embeds in it. */
  class Node {
    const key: int
    var left: Node?
    var right: Node?
    var parent: Node?
    var color: Color

    constructor (key: int)
      ensures this.key == key
    {
      this.key := key;
      left, right, parent, color := null, null, null, Black;
    }
  }

  ghost function Key(n: Node): int {
    n.key
  }

  datatype Tree = Leaf | Branch(left: Tree, node: Node, color: Color, right: Tree)

  /** What surrounds a subtree: the frames from its parent up to the root. `Top` carries
      strict bounds on every key of the tree. */
  datatype Path =
    | Top(lo: int, hi: int)
    | GoLeft(up: Path, node: Node, color: Color, right: Tree)
    | GoRight(left: Tree, node: Node, color: Color, up: Path)

  ghost function Root(t: Tree): Node? {
    if t.Leaf? then null else t.node
  }

  ghost function Parent(z: Path): Node? {
    if z.Top? then null else z.node
  }

  ghost predicate IsRed(t: Tree) {
    t.Branch? && t.color.Red?
  }

  ghost function Plug(z: Path, t: Tree): Tree
    decreases z
  {
    match z
    case Top(_, _) => t
    case GoLeft(up, n, c, r) => Plug(up, Branch(t, n, c, r))
    case GoRight(l, n, c, up) => Plug(up, Branch(l, n, c, t))
  }

  /** The path `inner`, continued by `outer` where it ends. */
  ghost function Join(inner: Path, outer: Path): Path
    decreases inner
  {
    match inner
    case Top(_, _) => outer
    case GoLeft(up, n, c, r) => GoLeft(Join(up, outer), n, c, r)
    case GoRight(l, n, c, up) => GoRight(l, n, c, Join(up, outer))
  }

  /** The end of the path, at the root. */
  ghost function Start(z: Path): Path
    ensures Start(z).Top?
    decreases z
  {
    if z.Top? then z else Start(z.up)
  }

  ghost function Depth(z: Path): nat
    decreases z
  {
    if z.Top? then 0 else 1 + Depth(z.up)
  }

  lemma {:induction false} JoinDepth(inner: Path, outer: Path)
    ensures Depth(Join(inner, outer)) == Depth(inner) + Depth(outer)
    decreases inner
  {
    if inner.Top? {
    } else {
      JoinDepth(inner.up, outer);
    }
  }

  lemma {:induction false} PlugRoot(z: Path, t: Tree)
    ensures t.Branch? ==> Plug(z, t).Branch?
    decreases z
  {
    if z.Top? {
    } else {
      PlugRoot(z.up, Lift(z, t));
    }
  }

  // ---------- nodes and in-order sequences ----------

  ghost function Nodes(t: Tree): (s: set<Node>)
    ensures t.Branch? ==> t.node in s
  {
    match t
    case Leaf => {}
    case Branch(l, n, _, r) => Nodes(l) + {n} + Nodes(r)
  }

  ghost function PathNodes(z: Path): (s: set<Node>)
    ensures !z.Top? ==> z.node in s
    decreases z
  {
    match z
    case Top(_, _) => {}
    case GoLeft(up, n, _, r) => PathNodes(up) + {n} + Nodes(r)
    case GoRight(l, n, _, up) => Nodes(l) + {n} + PathNodes(up)
  }

  ghost function InOrder(t: Tree): seq<Node> {
    match t
    case Leaf => []
    case Branch(l, n, _, r) => InOrder(l) + [n] + InOrder(r)
  }

  ghost function Before(z: Path): seq<Node>
    decreases z
  {
    match z
    case Top(_, _) => []
    case GoLeft(up, _, _, _) => Before(up)
    case GoRight(l, n, _, up) => Before(up) + (InOrder(l) + [n])
  }

  ghost function After(z: Path): seq<Node>
    decreases z
  {
    match z
    case Top(_, _) => []
    case GoLeft(up, n, _, r) => [n] + InOrder(r) + After(up)
    case GoRight(_, _, _, up) => After(up)
  }

  lemma {:induction false} InOrderPlug(z: Path, t: Tree)
    ensures InOrder(Plug(z, t)) == Before(z) + InOrder(t) + After(z)
    decreases z
  {
    match z
    case Top(_, _) =>
    case GoLeft(up, n, c, r) =>
      InOrderPlug(up, Branch(t, n, c, r));
      Regroup(Before(up), InOrder(t), n, InOrder(r), After(up));
    case GoRight(l, n, c, up) =>
      InOrderPlug(up, Branch(l, n, c, t));
      Regroup(Before(up), InOrder(l), n, InOrder(t), After(up));
  }

  /** Two subtrees with the same in-order sequence are interchangeable under any path. */
  lemma InOrderCongruence(z: Path, t: Tree, u: Tree)
    requires InOrder(t) == InOrder(u)
    ensures InOrder(Plug(z, t)) == InOrder(Plug(z, u))
  {
    InOrderPlug(z, t);
    InOrderPlug(z, u);
  }

  lemma {:induction false} NodesInOrder(t: Tree)
    ensures forall n :: n in Nodes(t) <==> n in InOrder(t)
  {
    if t.Leaf? {
    } else {
      NodesInOrder(t.left);
      NodesInOrder(t.right);
    }
  }

  // ---------- search order ----------

  ghost function Lo(z: Path): int
    decreases z
  {
    match z
    case Top(lo, _) => lo
    case GoLeft(up, _, _, _) => Lo(up)
    case GoRight(_, n, _, _) => n.key
  }

  ghost function Hi(z: Path): int
    decreases z
  {
    match z
    case Top(_, hi) => hi
    case GoLeft(_, n, _, _) => n.key
    case GoRight(_, _, _, up) => Hi(up)
  }

  /** Search order, with all keys strictly between `lo` and `hi`. */
  ghost predicate Ordered(t: Tree, lo: int, hi: int)
    ensures Ordered(t, lo, hi) ==> forall n <- Nodes(t) :: lo < n.key < hi
  {
    match t
    case Leaf => true
    case Branch(l, n, _, r) => lo < n.key < hi && Ordered(l, lo, n.key) && Ordered(r, n.key, hi)
  }

  /** Search order of everything outside the subtree. */
  ghost predicate PathOrdered(z: Path)
    ensures PathOrdered(z) ==> forall n <- PathNodes(z) :: n.key <= Lo(z) || Hi(z) <= n.key
    decreases z
  {
    match z
    case Top(_, _) => true
    case GoLeft(up, n, _, r) =>
      Lo(up) < n.key < Hi(up) && Ordered(r, n.key, Hi(up)) && PathOrdered(up)
    case GoRight(l, n, _, up) =>
      Lo(up) < n.key < Hi(up) && Ordered(l, Lo(up), n.key) && PathOrdered(up)
  }

  // ---------- colours ----------

  ghost function BlackHeight(t: Tree): nat {
    match t
    case Leaf => 0
    case Branch(l, _, c, _) => BlackHeight(l) + if c.Black? then 1 else 0
  }

  /** Every path from the root of `t` to a leaf has the same number of black nodes. */
  ghost predicate Balanced(t: Tree) {
    match t
    case Leaf => true
    case Branch(l, _, _, r) => Balanced(l) && Balanced(r) && BlackHeight(l) == BlackHeight(r)
  }

  /** No red node has a red child. */
  ghost predicate Colored(t: Tree) {
    match t
    case Leaf => true
    case Branch(l, _, c, r) =>
      Colored(l) && Colored(r) && (c.Red? ==> !IsRed(l) && !IsRed(r))
  }

  /** The surroundings are balanced when the subtree has black height `h`. */
  ghost predicate PathBalanced(z: Path, h: nat)
    decreases z
  {
    match z
    case Top(_, _) => true
    case GoLeft(up, _, c, s) =>
      Balanced(s) && BlackHeight(s) == h && PathBalanced(up, h + if c.Black? then 1 else 0)
    case GoRight(s, _, c, up) =>
      Balanced(s) && BlackHeight(s) == h && PathBalanced(up, h + if c.Black? then 1 else 0)
  }

  ghost predicate TopIsBlack(z: Path) {
    !z.Top? && z.color.Black?
  }

  /** The surroundings have a black root and no red node with a red child. */
  ghost predicate PathColored(z: Path)
    decreases z
  {
    match z
    case Top(_, _) => true
    case GoLeft(up, _, c, s) => Colored(s) && PathColored(up) && (c.Red? ==> !IsRed(s) && TopIsBlack(up))
    case GoRight(s, _, c, up) => Colored(s) && PathColored(up) && (c.Red? ==> !IsRed(s) && TopIsBlack(up))
  }

  /** Nothing is wrong: the whole tree meets the red-black conditions. */
  ghost predicate Fit(z: Path, t: Tree) {
    && Balanced(t) && Colored(t)
    && PathBalanced(z, BlackHeight(t)) && PathColored(z)
    && (IsRed(t) ==> TopIsBlack(z))
  }

  /** The one thing that may be wrong is that the red node at the top of `t` has a red
      parent, or is the root. */
  ghost predicate Hot(z: Path, t: Tree) {
    && IsRed(t) && Balanced(t) && Colored(t)
    && PathBalanced(z, BlackHeight(t)) && PathColored(z)
  }

  /** Every path through `t` has exactly one black node too few; nothing else is wrong,
      except that a red node at the top of `t` may have red neighbours or be the root. */
  ghost predicate Short(z: Path, t: Tree) {
    && Balanced(t) && (t.Branch? ==> Colored(t.left) && Colored(t.right))
    && PathBalanced(z, BlackHeight(t) + 1) && PathColored(z)
  }

  /** The red-black conditions of a whole tree. */
  ghost predicate RedBlack(t: Tree) {
    Balanced(t) && Colored(t) && !IsRed(t)
  }

  lemma FitDown(z: Path, l: Tree, n: Node, c: Color, r: Tree)
    ensures Fit(z, Branch(l, n, c, r)) <==> Fit(GoLeft(z, n, c, r), l)
    ensures Fit(z, Branch(l, n, c, r)) <==> Fit(GoRight(l, n, c, z), r)
  {
  }

  lemma {:induction false} FitPlug(z: Path, t: Tree)
    ensures Fit(z, t) <==> RedBlack(Plug(z, t))
    decreases z
  {
    match z
    case Top(_, _) =>
    case GoLeft(up, n, c, r) =>
      FitDown(up, t, n, c, r);
      FitPlug(up, Branch(t, n, c, r));
    case GoRight(l, n, c, up) =>
      FitDown(up, l, n, c, t);
      FitPlug(up, Branch(l, n, c, t));
  }

  // ---------- steps of the tree algorithms, on shapes ----------

  /** The subtree one frame up. */
  ghost function Lift(z: Path, t: Tree): Tree
    requires !z.Top?
  {
    match z
    case GoLeft(_, n, c, r) => Branch(t, n, c, r)
    case GoRight(l, n, c, _) => Branch(l, n, c, t)
  }

  ghost function Painted(t: Tree, c: Color): Tree
    requires t.Branch?
  {
    t.(color := c)
  }

  /** RB_ROTATE_LEFT at the root of `t`. */
  ghost function LeftRotated(t: Tree): Tree
    requires t.Branch? && t.right.Branch?
  {
    Branch(Branch(t.left, t.node, t.color, t.right.left), t.right.node, t.right.color, t.right.right)
  }

  /** RB_ROTATE_RIGHT at the root of `t`. */
  ghost function RightRotated(t: Tree): Tree
    requires t.Branch? && t.left.Branch?
  {
    Branch(t.left.left, t.left.node, t.left.color, Branch(t.left.right, t.node, t.color, t.right))
  }

  // ---------- RB_INSERT_COLOR ----------

  /** A red-red clash below a red parent: the grandparent exists and is black. */
  lemma HotGrandparent(z: Path, t: Tree)
    requires Hot(z, t) && !z.Top? && z.color.Red?
    ensures TopIsBlack(z.up)
  {
  }

  /** Red uncle: recolouring moves the clash two levels up. */
  lemma HotRecoloredLeft(z: Path, t: Tree)
    requires Hot(z, t) && !z.Top? && z.color.Red? && z.up.GoLeft? && IsRed(z.up.right)
    ensures Hot(z.up.up, Branch(Painted(Lift(z, t), Black), z.up.node, Red, Painted(z.up.right, Black)))
  {
    var p := Lift(z, t);
    assert PathBalanced(z.up, BlackHeight(p)) && PathColored(z.up);
    assert Balanced(z.up.right) && Colored(z.up.right);
  }

  lemma HotRecoloredRight(z: Path, t: Tree)
    requires Hot(z, t) && !z.Top? && z.color.Red? && z.up.GoRight? && IsRed(z.up.left)
    ensures Hot(z.up.up, Branch(Painted(z.up.left, Black), z.up.node, Red, Painted(Lift(z, t), Black)))
  {
    var p := Lift(z, t);
    assert PathBalanced(z.up, BlackHeight(p)) && PathColored(z.up);
    assert Balanced(z.up.left) && Colored(z.up.left);
  }

  /** Inner grandchild: a rotation at the parent turns it into an outer one. */
  lemma HotInnerLeft(z: Path, t: Tree)
    requires Hot(z, t) && z.GoRight? && z.color.Red?
    ensures Hot(GoLeft(z.up, t.node, Red, t.right), Branch(z.left, z.node, Red, t.left))
  {
  }

  lemma HotInnerRight(z: Path, t: Tree)
    requires Hot(z, t) && z.GoLeft? && z.color.Red?
    ensures Hot(GoRight(t.left, t.node, Red, z.up), Branch(t.right, z.node, Red, z.right))
  {
  }

  /** Outer grandchild with a black uncle: the rotation at the grandparent ends the clash. */
  lemma HotOuterLeft(z: Path, t: Tree)
    requires Hot(z, t) && z.GoLeft? && z.color.Red? && z.up.GoLeft? && !IsRed(z.up.right)
    ensures Hot(GoLeft(z.up.up, z.node, Black, Branch(z.right, z.up.node, Red, z.up.right)), t)
  {
    var p := Lift(z, t);
    assert PathBalanced(z.up, BlackHeight(p)) && PathColored(z.up);
  }

  lemma HotOuterRight(z: Path, t: Tree)
    requires Hot(z, t) && z.GoRight? && z.color.Red? && z.up.GoRight? && !IsRed(z.up.left)
    ensures Hot(GoRight(Branch(z.up.left, z.up.node, Red, z.left), z.node, Black, z.up.up), t)
  {
    var p := Lift(z, t);
    assert PathBalanced(z.up, BlackHeight(p)) && PathColored(z.up);
  }

  // ---------- RB_REMOVE_COLOR ----------

  /** A short subtree below the root has a sibling. */
  lemma ShortSibling(z: Path, t: Tree)
    requires Short(z, t)
    ensures z.GoLeft? ==> z.right.Branch?
    ensures z.GoRight? ==> z.left.Branch?
  {
  }

  /** Red sibling: the rotation at the parent leaves a black sibling below a red parent. */
  lemma ShortRedSiblingLeft(z: Path, t: Tree)
    requires Short(z, t) && z.GoLeft? && !IsRed(t) && IsRed(z.right)
    ensures z.color.Black? && !IsRed(z.right.left)
    ensures Short(GoLeft(GoLeft(z.up, z.right.node, Black, z.right.right), z.node, Red, z.right.left), t)
  {
  }

  lemma ShortRedSiblingRight(z: Path, t: Tree)
    requires Short(z, t) && z.GoRight? && !IsRed(t) && IsRed(z.left)
    ensures z.color.Black? && !IsRed(z.left.right)
    ensures Short(GoRight(z.left.right, z.node, Red, GoRight(z.left.left, z.left.node, Black, z.up)), t)
  {
  }

  /** Black sibling with no red child: reddening it makes the parent's subtree short. */
  lemma ShortReddenedLeft(z: Path, t: Tree)
    requires Short(z, t) && z.GoLeft? && !IsRed(t) && z.right.Branch? && z.right.color.Black?
    requires !IsRed(z.right.left) && !IsRed(z.right.right)
    ensures Short(z.up, Branch(t, z.node, z.color, Painted(z.right, Red)))
  {
  }

  lemma ShortReddenedRight(z: Path, t: Tree)
    requires Short(z, t) && z.GoRight? && !IsRed(t) && z.left.Branch? && z.left.color.Black?
    requires !IsRed(z.left.left) && !IsRed(z.left.right)
    ensures Short(z.up, Branch(Painted(z.left, Red), z.node, z.color, t))
  {
  }

  /** Black sibling whose only red child is the near one: a rotation makes it the far one. */
  lemma ShortNearLeft(z: Path, t: Tree)
    requires Short(z, t) && z.GoLeft? && !IsRed(t) && z.right.Branch? && z.right.color.Black?
    requires IsRed(z.right.left) && !IsRed(z.right.right)
    ensures
      var s := Branch(Painted(z.right.left, Black), z.right.node, Red, z.right.right);
      Short(GoLeft(z.up, z.node, z.color, RightRotated(s)), t)
  {
    assert Balanced(z.right) && Colored(z.right);
    assert Balanced(z.right.left) && Colored(z.right.left);
  }

  lemma ShortNearRight(z: Path, t: Tree)
    requires Short(z, t) && z.GoRight? && !IsRed(t) && z.left.Branch? && z.left.color.Black?
    requires IsRed(z.left.right) && !IsRed(z.left.left)
    ensures
      var s := Branch(z.left.left, z.left.node, Red, Painted(z.left.right, Black));
      Short(GoRight(LeftRotated(s), z.node, z.color, z.up), t)
  {
    assert Balanced(z.left) && Colored(z.left);
    assert Balanced(z.left.right) && Colored(z.left.right);
  }

  /** Black sibling with a red far child: the last rotation repairs the whole tree. */
  lemma ShortFarLeft(z: Path, t: Tree)
    requires Short(z, t) && z.GoLeft? && !IsRed(t) && z.right.Branch? && z.right.color.Black? && IsRed(z.right.right)
    ensures
      var p := Branch(t, z.node, Black, z.right.left);
      Fit(z.up, Branch(p, z.right.node, z.color, Painted(z.right.right, Black)))
  {
    assert Balanced(z.right) && Colored(z.right);
    assert Balanced(z.right.right) && Colored(z.right.right);
  }

  lemma ShortFarRight(z: Path, t: Tree)
    requires Short(z, t) && z.GoRight? && !IsRed(t) && z.left.Branch? && z.left.color.Black? && IsRed(z.left.left)
    ensures Fit(z.up, Branch(Painted(z.left.left, Black), z.left.node, z.color, Branch(z.left.right, z.node, Black, t)))
  {
    assert Balanced(z.left) && Colored(z.left);
    assert Balanced(z.left.left) && Colored(z.left.left);
  }

  /** At the end of the loop: blackening the top of `t` repairs everything. */
  lemma ShortBlackened(z: Path, t: Tree)
    requires Short(z, t) && (IsRed(t) || z.Top?)
    ensures Fit(z, if t.Leaf? then t else Painted(t, Black))
  {
  }

  lemma HotBlackened(z: Path, t: Tree)
    requires Hot(z, t) && (z.Top? || z.color.Black?)
    ensures z.Top? ==> Fit(z, Painted(t, Black))
    ensures !z.Top? ==> Fit(z, t)
  {
  }

  // ---------- where a subtree sits ----------

  /** Search order inside and outside the subtree, and the in-order sequence of the whole
      tree is `contents`, all of it among `repr`. */
  ghost predicate Placed(z: Path, t: Tree, contents: seq<Node>, repr: set<Node>) {
    && Nodes(t) <= repr && PathNodes(z) <= repr
    && Ordered(t, Lo(z), Hi(z)) && PathOrdered(z)
    && InOrder(Plug(z, t)) == contents
  }

  lemma OrderedStep(l: Tree, n: Node, c: Color, r: Tree, lo: int, hi: int)
    ensures Ordered(Branch(l, n, c, r), lo, hi) <==>
      lo < n.key < hi && Ordered(l, lo, n.key) && Ordered(r, n.key, hi)
  {
  }

  lemma PlacedDown(z: Path, l: Tree, n: Node, c: Color, r: Tree, contents: seq<Node>, repr: set<Node>)
    ensures Placed(z, Branch(l, n, c, r), contents, repr) <==> Placed(GoLeft(z, n, c, r), l, contents, repr)
    ensures Placed(z, Branch(l, n, c, r), contents, repr) <==> Placed(GoRight(l, n, c, z), r, contents, repr)
  {
    hide InOrder;
    OrderedStep(l, n, c, r, Lo(z), Hi(z));
    assert Nodes(Branch(l, n, c, r)) == Nodes(l) + {n} + Nodes(r);
    assert PathNodes(GoLeft(z, n, c, r)) == PathNodes(z) + {n} + Nodes(r);
    assert PathNodes(GoRight(l, n, c, z)) == Nodes(l) + {n} + PathNodes(z);
  }

  lemma LeftRotatedNodes(t: Tree)
    requires t.Branch? && t.right.Branch?
    ensures Nodes(LeftRotated(t)) == Nodes(t)
  {
    var u := LeftRotated(t);
    assert Nodes(t.right) == Nodes(t.right.left) + {t.right.node} + Nodes(t.right.right);
    assert Nodes(u.left) == Nodes(t.left) + {t.node} + Nodes(t.right.left);
  }

  lemma LeftRotatedInOrder(t: Tree)
    requires t.Branch? && t.right.Branch?
    ensures InOrder(LeftRotated(t)) == InOrder(t)
  {
    var a, b, c := InOrder(t.left), InOrder(t.right.left), InOrder(t.right.right);
    assert InOrder(t.right) == b + [t.right.node] + c;
    assert a + [t.node] + (b + [t.right.node] + c) == a + [t.node] + b + [t.right.node] + c;
  }

  lemma LeftRotatedOrdered(t: Tree, lo: int, hi: int)
    requires t.Branch? && t.right.Branch?
    ensures Ordered(t, lo, hi) <==> Ordered(LeftRotated(t), lo, hi)
  {
    hide Ordered;
    var u := t.right;
    OrderedStep(t.left, t.node, t.color, u, lo, hi);
    OrderedStep(u.left, u.node, u.color, u.right, t.node.key, hi);
    OrderedStep(t.left, t.node, t.color, u.left, lo, u.node.key);
    OrderedStep(LeftRotated(t).left, u.node, u.color, u.right, lo, hi);
  }

  /** A rotation moves no node in the in-order sequence, in either direction. */
  lemma PlacedRotated(z: Path, t: Tree, contents: seq<Node>, repr: set<Node>)
    requires t.Branch? && t.right.Branch?
    ensures Placed(z, t, contents, repr) <==> Placed(z, LeftRotated(t), contents, repr)
    ensures RightRotated(LeftRotated(t)) == t
  {
    hide Ordered, Nodes, InOrder, Plug, PathOrdered;
    LeftRotatedNodes(t);
    LeftRotatedInOrder(t);
    LeftRotatedOrdered(t, Lo(z), Hi(z));
    InOrderCongruence(z, t, LeftRotated(t));
  }

  lemma PlacedPainted(z: Path, t: Tree, c: Color, contents: seq<Node>, repr: set<Node>)
    requires t.Branch? && Placed(z, t, contents, repr)
    ensures Placed(z, Painted(t, c), contents, repr)
  {
    assert InOrder(Painted(t, c)) == InOrder(t);
    InOrderCongruence(z, t, Painted(t, c));
  }

  // ---------- whole trees ----------

  lemma {:induction false} OrderedAscending(t: Tree, lo: int, hi: int)
    requires Ordered(t, lo, hi)
    ensures Ascending(InOrder(t), Key)
    ensures forall n <- InOrder(t) :: lo < n.key < hi
  {
    if t.Leaf? {
    } else {
      OrderedAscending(t.left, lo, t.node.key);
      OrderedAscending(t.right, t.node.key, hi);
    }
  }

  lemma {:induction false} AscendingOrdered(t: Tree, lo: int, hi: int)
    requires Ascending(InOrder(t), Key)
    requires forall n <- InOrder(t) :: lo < n.key < hi
    ensures Ordered(t, lo, hi)
  {
    if t.Leaf? {
    } else {
      AscendingParts(InOrder(t.left), t.node, InOrder(t.right), Key);
      AscendingOrdered(t.left, lo, t.node.key);
      AscendingOrdered(t.right, t.node.key, hi);
    }
  }

  /** The keys before and after the hole lie outside its bounds. */
  lemma {:induction false} PathKeys(z: Path)
    requires PathOrdered(z)
    ensures forall n <- Before(z) :: n.key <= Lo(z)
    ensures forall n <- After(z) :: Hi(z) <= n.key
    ensures Lo(z) < Hi(z) || z.Top?
    decreases z
  {
    match z
    case Top(_, _) =>
    case GoLeft(up, n, _, r) =>
      PathKeys(up);
      OrderedAscending(r, n.key, Hi(up));
    case GoRight(l, n, _, up) =>
      PathKeys(up);
      OrderedAscending(l, Lo(up), n.key);
  }

  // ---------- the height of a red-black tree ----------

  ghost function Height(t: Tree): nat {
    if t.Leaf? then 0 else 1 + Max(Height(t.left), Height(t.right))
  }

  /** At most half of the nodes on a path to a leaf are red. */
  lemma {:induction false} HeightByBlackHeight(t: Tree)
    requires Balanced(t) && Colored(t)
    ensures Height(t) <= 2 * BlackHeight(t) + if IsRed(t) then 1 else 0
  {
    if t.Leaf? {
    } else {
      HeightByBlackHeight(t.left);
      HeightByBlackHeight(t.right);
    }
  }

  lemma {:induction false} SizeByBlackHeight(t: Tree)
    requires Balanced(t)
    ensures Pow2(BlackHeight(t)) <= |InOrder(t)| + 1
  {
    if t.Leaf? {
    } else {
      SizeByBlackHeight(t.left);
      SizeByBlackHeight(t.right);
    }
  }

  /** The height is at most 2 lg (n + 1), for n nodes. */
  lemma HeightBound(t: Tree)
    requires RedBlack(t)
    ensures Logarithmic(Height(t), |InOrder(t)|)
  {
    var b, n := Pow2(BlackHeight(t)), |InOrder(t)| + 1;
    HeightByBlackHeight(t);
    SizeByBlackHeight(t);
    Pow2Monotone(Height(t), 2 * BlackHeight(t));
    Pow2Double(BlackHeight(t));
    SquareMonotone(b, n);
  }

  lemma {:induction false} DepthByHeight(z: Path, t: Tree)
    ensures Depth(z) + Height(t) <= Height(Plug(z, t))
    decreases z
  {
    if z.Top? {
    } else {
      DepthByHeight(z.up, Lift(z, t));
    }
  }

  // ---------- RB_REMOVE ----------

  lemma {:induction false} OrderedWiden(t: Tree, lo: int, hi: int, lo': int, hi': int)
    requires Ordered(t, lo, hi) && lo' <= lo && hi <= hi'
    ensures Ordered(t, lo', hi')
  {
    if t.Leaf? {
    } else {
      OrderedWiden(t.left, lo, t.node.key, lo', t.node.key);
      OrderedWiden(t.right, t.node.key, hi, t.node.key, hi');
    }
  }

  /** A node with at most one child goes: red leaves no gap, black leaves its place short. */
  lemma SplicedFit(z: Path, t: Tree, s: Tree)
    requires Fit(z, t) && t.Branch?
    requires (t.left.Leaf? && s == t.right) || (t.right.Leaf? && s == t.left)
    ensures if t.color.Red? then Fit(z, s) else Short(z, s)
  {
    assert Balanced(s) && Colored(s) && BlackHeight(s) == 0;
  }

  /** A path that only goes left: down to the minimum of a subtree. */
  ghost predicate LeftSpine(z: Path)
    decreases z
  {
    z.Top? || (z.GoLeft? && LeftSpine(z.up))
  }

  /** The path `spine` inside the right subtree of `n`. */
  ghost function Below(spine: Path, l: Tree, n: Node, c: Color, z: Path): Path {
    Join(spine, GoRight(l, n, c, z))
  }

  /** Renaming the node above a left spine to the minimum below it keeps the search order. */
  lemma {:induction false} SpineOrdered(spine: Path, l: Tree, n: Node, m: Node, c: Color, z: Path)
    requires LeftSpine(spine) && PathOrdered(Below(spine, l, n, c, z))
    requires n.key < m.key < Hi(Below(spine, l, n, c, z))
    ensures PathOrdered(Below(spine, l, m, c, z))
    ensures Lo(Below(spine, l, n, c, z)) == n.key && Lo(Below(spine, l, m, c, z)) == m.key
    ensures Hi(Below(spine, l, m, c, z)) == Hi(Below(spine, l, n, c, z))
    decreases spine
  {
    if spine.Top? {
      OrderedWiden(l, Lo(z), n.key, Lo(z), m.key);
    } else {
      SpineOrdered(spine.up, l, n, m, c, z);
    }
  }

  lemma {:induction false} SpineLow(spine: Path, l: Tree, n: Node, c: Color, z: Path)
    requires LeftSpine(spine)
    ensures Lo(Below(spine, l, n, c, z)) == n.key
    ensures PathOrdered(Below(spine, l, n, c, z)) && !spine.Top? ==> n.key < spine.node.key
    decreases spine
  {
    if spine.Top? {
    } else {
      SpineLow(spine.up, l, n, c, z);
    }
  }

  /** The order of a subtree in its place is the order of the larger subtree around it. */
  lemma {:induction false} OrderedJoin(inner: Path, outer: Path, t: Tree)
    requires PathOrdered(Join(inner, outer)) && Ordered(t, Lo(Join(inner, outer)), Hi(Join(inner, outer)))
    ensures Ordered(Plug(inner, t), Lo(outer), Hi(outer)) && PathOrdered(outer)
    decreases inner
  {
    if inner.Top? {
    } else {
      OrderedJoin(inner.up, outer, Lift(inner, t));
    }
  }

  /** Colours and black heights do not depend on which node a frame holds. */
  lemma {:induction false} SpineColors(spine: Path, l: Tree, n: Node, m: Node, c: Color, z: Path, h: nat)
    ensures PathBalanced(Below(spine, l, n, c, z), h) <==> PathBalanced(Below(spine, l, m, c, z), h)
    ensures PathColored(Below(spine, l, n, c, z)) <==> PathColored(Below(spine, l, m, c, z))
    ensures TopIsBlack(Below(spine, l, n, c, z)) <==> TopIsBlack(Below(spine, l, m, c, z))
    decreases spine
  {
    if spine.Top? {
    } else {
      SpineColors(spine.up, l, n, m, c, z, h + if spine.color.Black? then 1 else 0);
    }
  }

  lemma {:induction false} SpineBefore(spine: Path)
    requires LeftSpine(spine)
    ensures Before(spine) == []
    decreases spine
  {
    if spine.Top? {
    } else {
      SpineBefore(spine.up);
    }
  }

  /** Fit and short places stay so when the node above the spine is renamed. */
  lemma SpineFit(spine: Path, l: Tree, n: Node, m: Node, c: Color, z: Path, t: Tree)
    ensures Fit(Below(spine, l, n, c, z), t) ==> Fit(Below(spine, l, m, c, z), t)
    ensures Short(Below(spine, l, n, c, z), t) ==> Short(Below(spine, l, m, c, z), t)
  {
    SpineColors(spine, l, n, m, c, z, BlackHeight(t));
    SpineColors(spine, l, n, m, c, z, BlackHeight(t) + 1);
  }

  /** The minimum stands first in its subtree. */
  lemma SpineFirst(spine: Path, u: Tree)
    requires LeftSpine(spine) && u.Branch? && u.left.Leaf?
    ensures InOrder(Plug(spine, u)) == [u.node] + InOrder(Plug(spine, u.right))
  {
    hide Plug, After, Before;
    InOrderPlug(spine, u);
    InOrderPlug(spine, u.right);
    SpineBefore(spine);
    assert InOrder(u) == [u.node] + InOrder(u.right);
  }

  /** The minimum of the right subtree fits between the node and what is left there. */
  lemma MinimumOrder(z: Path, t: Tree, spine: Path, u: Tree)
    requires t.Branch? && u.Branch? && u.left.Leaf? && LeftSpine(spine)
    requires PathOrdered(Below(spine, t.left, t.node, t.color, z))
    requires
      var y := Below(spine, t.left, t.node, t.color, z);
      Ordered(u, Lo(y), Hi(y))
    ensures Lo(z) < t.node.key < u.node.key < Hi(z)
    ensures Ordered(Plug(spine, u.right), u.node.key, Hi(z))
    ensures Parent(Below(spine, t.left, t.node, t.color, z)) == t.node <==> spine.Top?
  {
    SpineLow(spine, t.left, t.node, t.color, z);
    SpineOrdered(spine, t.left, t.node, u.node, t.color, z);
    var outer := GoRight(t.left, u.node, t.color, z);
    OrderedJoin(spine, outer, u.right);
    OrderedJoin(spine, GoRight(t.left, t.node, t.color, z), u);
    hide Ordered, Plug;
    assert Lo(outer) == u.node.key;
  }

  /** Taking the minimum `u.node` out of the right subtree and putting it in the place of
      the node takes that node out of the in-order sequence. */
  lemma MinimumContents(z: Path, t: Tree, spine: Path, u: Tree)
    requires t.Branch? && u.Branch? && u.left.Leaf? && LeftSpine(spine) && Plug(spine, u) == t.right
    ensures Inserted(
      Before(z) + (InOrder(t.left) + [u.node] + InOrder(Plug(spine, u.right))) + After(z),
      t.node,
      Before(z) + (InOrder(t.left) + [t.node] + InOrder(t.right)) + After(z))
  {
    hide Inserted, InOrder, Plug, Before, After, LeftSpine;
    SpineFirst(spine, u);
    var a, r := InOrder(t.left), InOrder(Plug(spine, u.right));
    InsertedInside(Before(z), a, t.node, [u.node] + r, After(z));
    Pairing(a, u.node, r);
  }

  /** The place of the minimum keeps its colours when the node above the spine is renamed. */
  lemma MinimumFit(z: Path, t: Tree, spine: Path, u: Tree)
    requires t.Branch? && u.Branch? && u.left.Leaf?
    requires Fit(Below(spine, t.left, t.node, t.color, z), u)
    ensures
      var y := Below(spine, t.left, u.node, t.color, z);
      if u.color.Red? then Fit(y, u.right) else Short(y, u.right)
  {
    hide Fit, Short, Join;
    SplicedFit(Below(spine, t.left, t.node, t.color, z), u, u.right);
    SpineFit(spine, t.left, t.node, u.node, t.color, z, u.right);
  }

  // ---------- order of iteration ----------

  lemma AfterStep(z: Path, t: Tree)
    requires t.Branch?
    ensures InOrder(t.left) + After(GoLeft(z, t.node, t.color, t.right)) == InOrder(t) + After(z)
    ensures Before(GoRight(t.left, t.node, t.color, z)) + InOrder(t.right) == Before(z) + InOrder(t)
  {
  }

  ghost predicate RightSpine(z: Path)
    decreases z
  {
    z.Top? || (z.GoRight? && RightSpine(z.up))
  }

  /** All the way to the left is the first element, all the way to the right the last. */
  lemma {:induction false} SpineEnds(z: Path)
    requires LeftSpine(z) || RightSpine(z)
    ensures LeftSpine(z) ==>
      Before(z) == [] && if z.Top? then After(z) == [] else After(z) != [] && After(z)[0] == z.node
    ensures RightSpine(z) ==>
      After(z) == [] && if z.Top? then Before(z) == [] else Before(z) != [] && Before(z)[|Before(z)| - 1] == z.node
    decreases z
  {
    if z.Top? {
    } else {
      SpineEnds(z.up);
    }
  }

  // ---------- lookups ----------

  /** `n` is the element with the least key not below `k`. */
  ghost predicate LeastNotBelow(s: seq<Node>, k: int, n: Node) {
    n in s && k <= n.key && forall m <- s :: k <= m.key ==> n.key <= m.key
  }

  /** Where a sequence passes the key `k`. */
  lemma FirstOfRest(a: seq<Node>, b: seq<Node>, k: int)
    requires Ascending(a + b, Key)
    requires forall n <- a :: n.key < k
    requires forall n <- b :: k < n.key
    ensures b == [] ==> forall n <- a + b :: n.key < k
    ensures b != [] ==> LeastNotBelow(a + b, k, b[0])
  {
    if b != [] {
      assert a + b == a + [b[0]] + b[1..];
      AscendingParts(a, b[0], b[1..], Key);
      assert b == [b[0]] + b[1..];
    }
  }

  /** Where a key is present, the first element not below it is the one that has it. */
  lemma LookupsAgree(s: seq<Node>, k: int, found: Node, least: Node)
    requires Ascending(s, Key) && LeastNotBelow(s, k, least)
    requires found in s && found.key == k
    ensures least == found
  {
    var i :| 0 <= i < |s| && s[i] == found;
    var j :| 0 <= j < |s| && s[j] == least;
  }
}
