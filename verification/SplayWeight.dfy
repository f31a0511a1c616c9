/**
  The weight of a splay tree: the product of the sizes of its subtrees.

  It is the potential of the balance theorem, with products in place of sums of
  logarithms. What the turns of a splay cost is paid for by the weight they take away.
 */
module SplayWeight {
  import opened Arithmetic
  import opened SplayShape

  ghost function Size(t: Tree): nat {
    if t.Leaf? then 0 else Size(t.left) + 1 + Size(t.right)
  }

  ghost function Weight(t: Tree): nat {
    if t.Leaf? then 1 else Mul(Size(t), Mul(Weight(t.left), Weight(t.right)))
  }

  lemma {:induction false} WeightPositive(t: Tree)
    ensures Weight(t) > 0
  {
    if t.Leaf? {
    } else {
      WeightPositive(t.left);
      WeightPositive(t.right);
      MulMonotone(1, Weight(t.left), 1, Weight(t.right));
      MulMonotone(1, Size(t), 1, Weight(t.left) * Weight(t.right));
    }
  }

  lemma {:induction false} SizeIsLength(t: Tree)
    ensures Size(t) == |InOrder(t)|
  {
    if t.Leaf? {
    } else {
      SizeIsLength(t.left);
      SizeIsLength(t.right);
    }
  }

  // ---------- what a turn pays for ----------

  ghost function Cube(n: nat): nat {
    n * n * n
  }

  /** The work `p` (a power of two) and the weight left behind are paid for by the weight
      before and three times the logarithm of the size. */
  ghost predicate Paid(p: nat, after: Tree, before: Tree) {
    p * Weight(after) <= 2 * Cube(Size(before)) * Weight(before)
  }

  lemma RegroupedSteps(p: nat, w: nat, q: nat, x: nat, c: nat)
    ensures (p * w) * (q * x * c) == (q * p) * (x * (w * c))
  {
  }

  lemma RegroupedPart(b: nat, v: nat, q: nat, x: nat, c: nat)
    ensures (2 * b * v) * (q * x * c) == (q * x * b) * (2 * v * c)
  {
  }

  lemma RegroupedWhole(m: nat, y: nat, v: nat, c: nat)
    ensures (m * y) * (2 * v * c) == 2 * m * (y * (v * c))
  {
  }

  lemma Divided(p: nat, a: nat, w: nat, v: nat)
    requires a > 0 && p * (a * w) <= 2 * Cube(a) * v
    ensures p * w <= 2 * (a * a) * v
  {
    assert p * (a * w) == (p * w) * a;
    assert 2 * Cube(a) * v == 2 * (a * a) * v * a;
    MulCancel(p * w, 2 * (a * a) * v, a);
  }

  /** A turn on top of a part of size `a` that is paid for: it puts the sizes `x` in place
      of the sizes `y` and leaves `c` as it is. */
  lemma PayStep(q: nat, p: nat, a: nat, w: nat, v: nat, n: nat, x: nat, y: nat, c: nat)
    requires a > 0 && p * (a * w) <= 2 * Cube(a) * v && q * x * (a * a) <= Cube(n) * y
    ensures (q * p) * (x * (w * c)) <= 2 * Cube(n) * (y * (v * c))
  {
    hide *;
    Divided(p, a, w, v);
    MulMonotone(p * w, 2 * (a * a) * v, q * x * c, q * x * c);
    MulMonotone(q * x * (a * a), Cube(n) * y, 2 * v * c, 2 * v * c);
    RegroupedSteps(p, w, q, x, c);
    RegroupedPart(a * a, v, q, x, c);
    RegroupedWhole(Cube(n), y, v, c);
  }

  /** A turn in a tree of size `n`: the sizes `x` it makes cost no more than `y`, which it
      undoes, when it takes `q` steps on top of a part of size `a`. */
  ghost predicate Covered(q: nat, x: nat, a: nat, n: nat, y: nat) {
    q * x * (a * a) <= Cube(n) * y
  }

  lemma PayTurn(q: nat, p: nat, u: Tree, a: Tree, w: nat, x: nat, y: nat, c: nat, after: Tree, before: Tree)
    requires Paid(p, u, a) && Size(u) == Size(a) > 0 && Weight(u) == Mul(Size(u), w)
    requires Covered(q, x, Size(a), Size(before), y)
    requires Weight(after) == Mul(x, Mul(w, c)) && Weight(before) == Mul(y, Mul(Weight(a), c))
    ensures Paid(q * p, after, before)
  {
    hide Size, Weight, Cube;
    PayStep(q, p, Size(a), w, Weight(a), Size(before), x, y, c);
  }

  /** A turn at the end of the path. */
  ghost predicate CoveredAlone(q: nat, x: nat, n: nat, y: nat) {
    q * x <= 2 * Cube(n) * y
  }

  lemma PayStop(q: nat, x: nat, y: nat, c: nat, after: Tree, before: Tree)
    requires CoveredAlone(q, x, Size(before), y)
    requires Weight(after) == Mul(x, c) && Weight(before) == Mul(y, c)
    ensures Paid(q, after, before)
  {
    hide Size, Weight, Cube;
    var n := 2 * Cube(Size(before));
    MulMonotone(q * x, n * y, c, c);
    assert (q * x) * c == q * (x * c) && (n * y) * c == n * (y * c);
  }

  lemma ZigIdentity(x: nat, y: nat, a: nat, n: nat, l: nat)
    ensures 4 * (y * a) * (x * a) == 4 * (x * y) * (a * a)
    ensures n * n * (n * l) == Cube(n) * l
  {
  }

  lemma ZigZigSizes(x: nat, y: nat, a: nat, l: nat, n: nat)
    requires x <= n && a <= l && y + a <= n
    ensures Covered(4, Mul(x, y), a, n, l)
  {
    hide Cube;
    ProductOfParts(y, a, n);
    MulMonotone(x, n, a, l);
    MulMonotone(4 * (y * a), n * n, x * a, n * l);
    ZigIdentity(x, y, a, n, l);
  }

  lemma ZigZagSizes(x: nat, y: nat, a: nat, l: nat, n: nat)
    requires x + y <= n && a <= l && a <= n
    ensures Covered(4, Mul(x, y), a, n, l)
  {
    hide Cube;
    ProductOfParts(x, y, n);
    MulMonotone(a, n, a, l);
    MulMonotone(4 * (x * y), n * n, a * a, n * l);
    ZigIdentity(x, y, a, n, l);
  }

  lemma ZagIdentity(x: nat, y: nat, z: nat, a: nat, l: nat, m: nat, n: nat)
    ensures 4 * (x * y) * (4 * (z * a)) * a == 2 * (8 * (x * y * z) * (a * a))
    ensures n * n * (n * l) * m == Cube(n) * (l * m)
  {
  }

  lemma ZigZagZagSizes(x: nat, y: nat, z: nat, a: nat, l: nat, m: nat, n: nat)
    requires x + y <= n && z + a <= l && a <= m && l <= n
    ensures Covered(8, Mul(Mul(x, y), z), a, n, Mul(l, m))
  {
    hide Cube;
    ProductOfParts(x, y, n);
    ProductOfParts(z, a, l);
    MulMonotone(l, n, l, l);
    MulMonotone(4 * (x * y), n * n, 4 * (z * a), n * l);
    MulMonotone(4 * (x * y) * (4 * (z * a)), n * n * (n * l), a, m);
    ZagIdentity(x, y, z, a, l, m, n);
  }

  // ---------- the turns, on trees ----------

  lemma SizeStep(l: Tree, n: Node, r: Tree)
    ensures Size(Branch(l, n, r)) == Size(l) + 1 + Size(r)
    ensures Size(Leaf) == 0
  {
  }

  lemma WeightStep(l: Tree, n: Node, r: Tree)
    ensures Weight(Branch(l, n, r)) == Mul(Size(Branch(l, n, r)), Mul(Weight(l), Weight(r)))
    ensures Weight(Leaf) == 1
  {
  }

  lemma RotatedIdentity(n: nat, l: nat, x: nat, a: nat, b: nat, c: nat)
    ensures Mul(n, Mul(Mul(l, Mul(a, b)), c)) == Mul(l, Mul(n, Mul(a, Mul(b, c))))
    ensures Mul(n, Mul(a, Mul(x, Mul(b, c)))) == Mul(x, Mul(n, Mul(a, Mul(b, c))))
  {
    hide Mul;
    MulAssoc(l, Mul(a, b), c);
    MulAssoc(a, b, c);
    MulSwap(n, l, Mul(a, Mul(b, c)));
    MulSwap(a, x, Mul(b, c));
    MulSwap(n, x, Mul(a, Mul(b, c)));
  }

  lemma CubeLarge(n: nat, x: nat, l: nat)
    requires 2 <= n && x <= n && 1 <= l
    ensures CoveredAlone(4, x, n, l)
  {
    MulMonotone(2, n, n, n);
    MulMonotone(2, n * n, n, n);
    MulMonotone(2 * Cube(n), 2 * Cube(n), 1, l);
  }

  /** One rotation, with nothing below it to pay for. */
  lemma LastTurnLeft(a: Tree, m: Node, b: Tree, n: Node, c: Tree)
    ensures Paid(4, Branch(a, m, Branch(b, n, c)), Branch(Branch(a, m, b), n, c))
  {
    hide *;
    var after, before := Branch(a, m, Branch(b, n, c)), Branch(Branch(a, m, b), n, c);
    var l, x, s := Size(before.left), Size(after.right), Size(before);
    assert Size(after) == s && CoveredAlone(4, x, s, l) by {
      SizeStep(a, m, b);
      SizeStep(before.left, n, c);
      SizeStep(b, n, c);
      SizeStep(a, m, after.right);
      CubeLarge(s, x, l);
    }
    WeightStep(a, m, b);
    WeightStep(before.left, n, c);
    WeightStep(b, n, c);
    WeightStep(a, m, after.right);
    RotatedIdentity(s, l, x, Weight(a), Weight(b), Weight(c));
    PayStop(4, x, l, Mul(s, Mul(Weight(a), Mul(Weight(b), Weight(c)))), after, before);
  }

  lemma ZigZigIdentity(s: nat, x: nat, y: nat, l: nat, ul: nat, ur: nat, v: nat, b: nat, c: nat)
    ensures Mul(s, Mul(Mul(l, Mul(v, b)), c)) == Mul(l, Mul(v, Mul(s, Mul(b, c))))
    ensures Mul(s, Mul(ul, Mul(x, Mul(ur, Mul(y, Mul(b, c)))))) == Mul(Mul(x, y), Mul(Mul(ul, ur), Mul(s, Mul(b, c))))
  {
    hide Mul;
    var d, e := Mul(b, c), Mul(ur, Mul(b, c));
    MulAssoc(l, Mul(v, b), c);
    MulAssoc(v, b, c);
    MulSwap(s, l, Mul(v, d));
    MulSwap(s, v, d);
    MulSwap(ur, y, d);
    MulAssoc(x, y, e);
    MulSwap(ul, Mul(x, y), e);
    MulAssoc(ul, ur, d);
    MulSwap(s, Mul(x, y), Mul(ul, e));
    MulSwap(s, Mul(ul, ur), d);
  }

  /** Two levels the same way: the part `a` below them became `u`. */
  lemma ZigZigLeft(p: nat, u: Tree, a: Tree, m: Node, b: Tree, n: Node, c: Tree)
    requires u.Branch? && Size(u) == Size(a) && Paid(p, u, a)
    ensures
      Paid(4 * p, Branch(u.left, u.node, Branch(u.right, m, Branch(b, n, c))), Branch(Branch(a, m, b), n, c))
  {
    hide *;
    var inner := Branch(u.right, m, Branch(b, n, c));
    var after, before := Branch(u.left, u.node, inner), Branch(Branch(a, m, b), n, c);
    var x, y, l, s := Size(inner), Size(inner.right), Size(before.left), Size(before);
    assert Size(after) == s && Size(a) > 0 && Covered(4, Mul(x, y), Size(a), s, l) by {
      SizeStep(a, m, b);
      SizeStep(before.left, n, c);
      SizeStep(u.left, u.node, u.right);
      SizeStep(b, n, c);
      SizeStep(u.right, m, inner.right);
      SizeStep(u.left, u.node, inner);
      ZigZigSizes(x, y, Size(a), l, s);
    }
    WeightStep(a, m, b);
    WeightStep(before.left, n, c);
    WeightStep(u.left, u.node, u.right);
    WeightStep(b, n, c);
    WeightStep(u.right, m, inner.right);
    WeightStep(u.left, u.node, inner);
    ZigZigIdentity(s, x, y, l, Weight(u.left), Weight(u.right), Weight(a), Weight(b), Weight(c));
    PayTurn(4, p, u, a, Mul(Weight(u.left), Weight(u.right)), Mul(x, y), l,
            Mul(s, Mul(Weight(b), Weight(c))), after, before);
  }

  lemma ZigZagIdentity(s: nat, x: nat, y: nat, l: nat, ul: nat, ur: nat, v: nat, b: nat, c: nat)
    ensures Mul(s, Mul(Mul(l, Mul(b, v)), c)) == Mul(l, Mul(v, Mul(s, Mul(b, c))))
    ensures Mul(s, Mul(Mul(x, Mul(b, ul)), Mul(y, Mul(ur, c)))) == Mul(Mul(x, y), Mul(Mul(ul, ur), Mul(s, Mul(b, c))))
  {
    hide Mul;
    var d, e := Mul(b, c), Mul(ul, ur);
    MulComm(b, v);
    MulAssoc(l, Mul(v, b), c);
    MulAssoc(v, b, c);
    MulSwap(s, l, Mul(v, d));
    MulSwap(s, v, d);
    MulPair(x, Mul(b, ul), y, Mul(ur, c));
    MulComm(b, ul);
    MulPair(ul, b, ur, c);
    MulSwap(s, Mul(x, y), Mul(e, d));
    MulSwap(s, e, d);
  }

  /** One level one way and one the other. */
  lemma ZigZagLeft(p: nat, u: Tree, b: Tree, m: Node, a: Tree, n: Node, c: Tree)
    requires u.Branch? && Size(u) == Size(a) && Paid(p, u, a)
    ensures
      Paid(4 * p, Branch(Branch(b, m, u.left), u.node, Branch(u.right, n, c)), Branch(Branch(b, m, a), n, c))
  {
    hide *;
    var after := Branch(Branch(b, m, u.left), u.node, Branch(u.right, n, c));
    var before := Branch(Branch(b, m, a), n, c);
    var x, y, l, s := Size(after.left), Size(after.right), Size(before.left), Size(before);
    assert Size(after) == s && Size(a) > 0 && Covered(4, Mul(x, y), Size(a), s, l) by {
      SizeStep(b, m, a);
      SizeStep(before.left, n, c);
      SizeStep(u.left, u.node, u.right);
      SizeStep(b, m, u.left);
      SizeStep(u.right, n, c);
      SizeStep(after.left, u.node, after.right);
      ZigZagSizes(x, y, Size(a), l, s);
    }
    WeightStep(b, m, a);
    WeightStep(before.left, n, c);
    WeightStep(u.left, u.node, u.right);
    WeightStep(b, m, u.left);
    WeightStep(u.right, n, c);
    WeightStep(after.left, u.node, after.right);
    ZigZagIdentity(s, x, y, l, Weight(u.left), Weight(u.right), Weight(a), Weight(b), Weight(c));
    PayTurn(4, p, u, a, Mul(Weight(u.left), Weight(u.right)), Mul(x, y), l,
            Mul(s, Mul(Weight(b), Weight(c))), after, before);
  }

  lemma BeforeIdentity(s: nat, l: nat, r: nat, v: nat, b: nat, e: nat, c: nat)
    ensures Mul(s, Mul(Mul(l, Mul(b, Mul(r, Mul(e, v)))), c)) == Mul(Mul(l, r), Mul(v, Mul(s, Mul(Mul(b, e), c))))
  {
    hide Mul;
    var d, m := Mul(b, e), Mul(l, r);
    MulSwap(b, r, Mul(e, v));
    MulAssoc(b, e, v);
    MulComm(d, v);
    MulAssoc(l, r, Mul(v, d));
    MulAssoc(m, Mul(v, d), c);
    MulAssoc(v, d, c);
    MulSwap(s, m, Mul(v, Mul(d, c)));
    MulSwap(s, v, Mul(d, c));
  }

  lemma AfterIdentity(s: nat, x: nat, y: nat, z: nat, ul: nat, ur: nat, d: nat, c: nat)
    ensures Mul(s, Mul(Mul(x, Mul(Mul(z, d), ul)), Mul(y, Mul(ur, c)))) ==
            Mul(Mul(Mul(x, y), z), Mul(Mul(ul, ur), Mul(s, Mul(d, c))))
  {
    hide Mul;
    var m, e := Mul(x, z), Mul(ul, ur);
    MulAssoc(z, d, ul);
    MulAssoc(x, z, Mul(d, ul));
    MulPair(m, Mul(d, ul), y, Mul(ur, c));
    MulComm(d, ul);
    MulPair(ul, d, ur, c);
    MulAssoc(x, z, y);
    MulComm(z, y);
    MulAssoc(x, y, z);
    MulSwap(s, Mul(m, y), Mul(e, Mul(d, c)));
    MulSwap(s, e, Mul(d, c));
  }

  /** One level one way and two the other. */
  lemma ZigZagZagLeft(p: nat, u: Tree, b: Tree, m: Node, e: Tree, o: Node, a: Tree, n: Node, c: Tree)
    requires u.Branch? && Size(u) == Size(a) && Paid(p, u, a)
    ensures
      Paid(8 * p, Branch(Branch(Branch(b, m, e), o, u.left), u.node, Branch(u.right, n, c)),
           Branch(Branch(b, m, Branch(e, o, a)), n, c))
  {
    hide *;
    var after := Branch(Branch(Branch(b, m, e), o, u.left), u.node, Branch(u.right, n, c));
    var before := Branch(Branch(b, m, Branch(e, o, a)), n, c);
    var x, y, z := Size(after.left), Size(after.right), Size(after.left.left);
    var l, r, s := Size(before.left), Size(before.left.right), Size(before);
    assert Size(after) == s && Size(a) > 0 && Covered(8, Mul(Mul(x, y), z), Size(a), s, Mul(l, r)) by {
      SizeStep(e, o, a);
      SizeStep(b, m, before.left.right);
      SizeStep(before.left, n, c);
      SizeStep(u.left, u.node, u.right);
      SizeStep(b, m, e);
      SizeStep(after.left.left, o, u.left);
      SizeStep(u.right, n, c);
      SizeStep(after.left, u.node, after.right);
      ZigZagZagSizes(x, y, z, Size(a), l, r, s);
    }
    WeightStep(e, o, a);
    WeightStep(b, m, before.left.right);
    WeightStep(before.left, n, c);
    WeightStep(u.left, u.node, u.right);
    WeightStep(b, m, e);
    WeightStep(after.left.left, o, u.left);
    WeightStep(u.right, n, c);
    WeightStep(after.left, u.node, after.right);
    BeforeIdentity(s, l, r, Weight(a), Weight(b), Weight(e), Weight(c));
    AfterIdentity(s, x, y, z, Weight(u.left), Weight(u.right), Mul(Weight(b), Weight(e)), Weight(c));
    PayTurn(8, p, u, a, Mul(Weight(u.left), Weight(u.right)), Mul(Mul(x, y), z), Mul(l, r),
            Mul(s, Mul(Mul(Weight(b), Weight(e)), Weight(c))), after, before);
  }

  lemma LastZagIdentity(s: nat, x: nat, y: nat, l: nat, r: nat, b: nat, e: nat, c: nat)
    ensures Mul(s, Mul(Mul(l, Mul(b, Mul(r, Mul(e, 1)))), c)) == Mul(Mul(l, r), Mul(s, Mul(Mul(b, e), c)))
    ensures Mul(s, Mul(Mul(x, Mul(b, e)), Mul(y, Mul(1, c)))) == Mul(Mul(x, y), Mul(s, Mul(Mul(b, e), c)))
  {
    hide Mul;
    var d, m := Mul(b, e), Mul(l, r);
    MulOne(e);
    MulOne(c);
    MulSwap(b, r, e);
    MulAssoc(l, r, d);
    MulAssoc(m, d, c);
    MulSwap(s, m, Mul(d, c));
    MulPair(x, d, y, c);
    MulSwap(s, Mul(x, y), Mul(d, c));
  }

  lemma LastZagSizes(x: nat, y: nat, l: nat, r: nat, n: nat)
    requires x + y <= n && 1 <= l && 1 <= r && 1 <= n
    ensures CoveredAlone(8, Mul(x, y), n, Mul(l, r))
  {
    ProductOfParts(x, y, n);
    MulMonotone(n * n, n * n, 1, n);
    MulMonotone(1, l, 1, r);
    MulMonotone(2 * Cube(n), 2 * Cube(n), 1, l * r);
  }

  /** One level one way and two the other, where the path ends. */
  lemma LastZagLeft(b: Tree, m: Node, e: Tree, o: Node, n: Node, c: Tree)
    ensures
      Paid(8, Branch(Branch(b, m, e), o, Branch(Leaf, n, c)), Branch(Branch(b, m, Branch(e, o, Leaf)), n, c))
  {
    hide *;
    var after, before := Branch(Branch(b, m, e), o, Branch(Leaf, n, c)), Branch(Branch(b, m, Branch(e, o, Leaf)), n, c);
    var x, y := Size(after.left), Size(after.right);
    var l, r, s := Size(before.left), Size(before.left.right), Size(before);
    assert Size(after) == s && CoveredAlone(8, Mul(x, y), s, Mul(l, r)) by {
      SizeStep(e, o, Leaf);
      SizeStep(b, m, before.left.right);
      SizeStep(before.left, n, c);
      SizeStep(b, m, e);
      SizeStep(Leaf, n, c);
      SizeStep(after.left, o, after.right);
      LastZagSizes(x, y, l, r, s);
    }
    WeightStep(e, o, Leaf);
    WeightStep(b, m, before.left.right);
    WeightStep(before.left, n, c);
    WeightStep(b, m, e);
    WeightStep(Leaf, n, c);
    WeightStep(after.left, o, after.right);
    LastZagIdentity(s, x, y, l, r, Weight(b), Weight(e), Weight(c));
    PayStop(8, Mul(x, y), Mul(l, r), Mul(s, Mul(Mul(Weight(b), Weight(e)), Weight(c))), after, before);
  }

  // ---------- the mirror images ----------

  ghost function Mirror(t: Tree): Tree {
    if t.Leaf? then Leaf else Branch(Mirror(t.right), t.node, Mirror(t.left))
  }

  lemma {:induction false} MirrorWeight(t: Tree)
    ensures Size(Mirror(t)) == Size(t) && Weight(Mirror(t)) == Weight(t)
  {
    if t.Leaf? {
    } else {
      MirrorWeight(t.left);
      MirrorWeight(t.right);
      assert Mul(Weight(t.left), Weight(t.right)) == Mul(Weight(t.right), Weight(t.left));
    }
  }

  lemma PaidMirrored(p: nat, after: Tree, before: Tree)
    ensures Paid(p, after, before) <==> Paid(p, Mirror(after), Mirror(before))
  {
    hide Mirror, Weight, Size;
    MirrorWeight(after);
    MirrorWeight(before);
  }

  lemma MirrorStep(l: Tree, n: Node, r: Tree)
    ensures Mirror(Branch(l, n, r)) == Branch(Mirror(r), n, Mirror(l)) && Mirror(Leaf) == Leaf
  {
  }

  lemma LastTurnRight(c: Tree, n: Node, b: Tree, m: Node, a: Tree)
    ensures Paid(4, Branch(Branch(c, n, b), m, a), Branch(c, n, Branch(b, m, a)))
  {
    hide *;
    LastTurnLeft(Mirror(a), m, Mirror(b), n, Mirror(c));
    MirrorStep(c, n, b);
    MirrorStep(Branch(c, n, b), m, a);
    MirrorStep(b, m, a);
    MirrorStep(c, n, Branch(b, m, a));
    PaidMirrored(4, Branch(Branch(c, n, b), m, a), Branch(c, n, Branch(b, m, a)));
  }

  lemma ZigZigRight(p: nat, u: Tree, c: Tree, n: Node, b: Tree, m: Node, a: Tree)
    requires u.Branch? && Size(u) == Size(a) && Paid(p, u, a)
    ensures
      Paid(4 * p, Branch(Branch(Branch(c, n, b), m, u.left), u.node, u.right), Branch(c, n, Branch(b, m, a)))
  {
    hide *;
    PaidMirrored(p, u, a);
    MirrorWeight(u);
    MirrorWeight(a);
    MirrorStep(u.left, u.node, u.right);
    ZigZigLeft(p, Mirror(u), Mirror(a), m, Mirror(b), n, Mirror(c));
    MirrorStep(c, n, b);
    MirrorStep(Branch(c, n, b), m, u.left);
    MirrorStep(Branch(Branch(c, n, b), m, u.left), u.node, u.right);
    MirrorStep(b, m, a);
    MirrorStep(c, n, Branch(b, m, a));
    PaidMirrored(4 * p, Branch(Branch(Branch(c, n, b), m, u.left), u.node, u.right), Branch(c, n, Branch(b, m, a)));
  }

  lemma ZigZagRight(p: nat, u: Tree, c: Tree, n: Node, a: Tree, m: Node, b: Tree)
    requires u.Branch? && Size(u) == Size(a) && Paid(p, u, a)
    ensures
      Paid(4 * p, Branch(Branch(c, n, u.left), u.node, Branch(u.right, m, b)), Branch(c, n, Branch(a, m, b)))
  {
    hide *;
    PaidMirrored(p, u, a);
    MirrorWeight(u);
    MirrorWeight(a);
    MirrorStep(u.left, u.node, u.right);
    ZigZagLeft(p, Mirror(u), Mirror(b), m, Mirror(a), n, Mirror(c));
    MirrorStep(c, n, u.left);
    MirrorStep(u.right, m, b);
    MirrorStep(Branch(c, n, u.left), u.node, Branch(u.right, m, b));
    MirrorStep(a, m, b);
    MirrorStep(c, n, Branch(a, m, b));
    PaidMirrored(4 * p, Branch(Branch(c, n, u.left), u.node, Branch(u.right, m, b)), Branch(c, n, Branch(a, m, b)));
  }

  lemma ZigZagZagRight(p: nat, u: Tree, c: Tree, n: Node, a: Tree, o: Node, e: Tree, m: Node, b: Tree)
    requires u.Branch? && Size(u) == Size(a) && Paid(p, u, a)
    ensures
      Paid(8 * p, Branch(Branch(c, n, u.left), u.node, Branch(u.right, o, Branch(e, m, b))),
           Branch(c, n, Branch(Branch(a, o, e), m, b)))
  {
    hide *;
    PaidMirrored(p, u, a);
    MirrorWeight(u);
    MirrorWeight(a);
    MirrorStep(u.left, u.node, u.right);
    ZigZagZagLeft(p, Mirror(u), Mirror(b), m, Mirror(e), o, Mirror(a), n, Mirror(c));
    MirrorStep(c, n, u.left);
    MirrorStep(e, m, b);
    MirrorStep(u.right, o, Branch(e, m, b));
    MirrorStep(Branch(c, n, u.left), u.node, Branch(u.right, o, Branch(e, m, b)));
    MirrorStep(a, o, e);
    MirrorStep(Branch(a, o, e), m, b);
    MirrorStep(c, n, Branch(Branch(a, o, e), m, b));
    PaidMirrored(8 * p, Branch(Branch(c, n, u.left), u.node, Branch(u.right, o, Branch(e, m, b))),
                 Branch(c, n, Branch(Branch(a, o, e), m, b)));
  }

  lemma LastZagRight(c: Tree, n: Node, o: Node, e: Tree, m: Node, b: Tree)
    ensures
      Paid(8, Branch(Branch(c, n, Leaf), o, Branch(e, m, b)), Branch(c, n, Branch(Branch(Leaf, o, e), m, b)))
  {
    hide *;
    LastZagLeft(Mirror(b), m, Mirror(e), o, n, Mirror(c));
    MirrorStep(c, n, Leaf);
    MirrorStep(e, m, b);
    MirrorStep(Branch(c, n, Leaf), o, Branch(e, m, b));
    MirrorStep(Leaf, o, e);
    MirrorStep(Branch(Leaf, o, e), m, b);
    MirrorStep(c, n, Branch(Branch(Leaf, o, e), m, b));
    PaidMirrored(8, Branch(Branch(c, n, Leaf), o, Branch(e, m, b)), Branch(c, n, Branch(Branch(Leaf, o, e), m, b)));
  }

  lemma PaidAlone(t: Tree)
    requires t.Branch?
    ensures Paid(2, t, t)
  {
    var n := Size(t);
    assert n >= 1;
    hide Size, Weight;
    MulMonotone(1, n, 1, n);
    MulMonotone(1, n * n, 1, n);
    MulMonotone(2, 2 * Cube(n), Weight(t), Weight(t));
  }
}
