/**
  What splays cost in the long run: the balance theorem.
 */
module SplayBalance {
  import opened Arithmetic
  import opened SplayDepth
  import opened SplayShape
  import opened SplayWeight

  // ---------- the splay as rotations of the search path ----------

  /** The searched node brought up by rotations alone: two levels at a time while the search
      goes straight on, one level where it turns. */
  ghost function Raised(t: Tree, k: int): (u: Tree)
    requires t.Branch?
    ensures u.Branch?
  {
    if k < t.node.key && t.left.Branch? then
      if t.left.node.key <= k then RightRotated(t.(left := Raised(t.left, k)))
      else
        var q := RightRotated(t);
        if q.left.Leaf? then q else RightRotated(q.(left := Raised(q.left, k)))
    else if t.node.key < k && t.right.Branch? then
      if k <= t.right.node.key then LeftRotated(t.(right := Raised(t.right, k)))
      else
        var q := LeftRotated(t);
        if q.right.Leaf? then q else LeftRotated(q.(right := Raised(q.right, k)))
    else t
  }

  lemma RightRotatedSize(l: Tree, n: Node, r: Tree)
    requires l.Branch?
    ensures Size(RightRotated(Branch(l, n, r))) == Size(l) + 1 + Size(r)
  {
  }

  lemma LeftRotatedSize(l: Tree, n: Node, r: Tree)
    requires r.Branch?
    ensures Size(LeftRotated(Branch(l, n, r))) == Size(l) + 1 + Size(r)
  {
  }

  lemma {:induction false} RaisedSize(t: Tree, k: int)
    requires t.Branch?
    ensures Size(Raised(t, k)) == Size(t)
  {
    if k < t.node.key && t.left.Branch? {
      if t.left.node.key <= k {
        RaisedSize(t.left, k);
        RightRotatedSize(Raised(t.left, k), t.node, t.right);
      } else {
        var q := RightRotated(t);
        RightRotatedSize(t.left, t.node, t.right);
        if q.left.Branch? {
          RaisedSize(q.left, k);
          RightRotatedSize(Raised(q.left, k), q.node, q.right);
        }
      }
    } else if t.node.key < k && t.right.Branch? {
      if k <= t.right.node.key {
        RaisedSize(t.right, k);
        LeftRotatedSize(t.left, t.node, Raised(t.right, k));
      } else {
        var q := LeftRotated(t);
        LeftRotatedSize(t.left, t.node, t.right);
        if q.right.Branch? {
          RaisedSize(q.right, k);
          LeftRotatedSize(q.left, q.node, Raised(q.right, k));
        }
      }
    } else {
    }
  }

  lemma {:induction false} LoopRaises(p: Pieces, k: int)
    requires p.m.Branch?
    ensures Assembled(SplayLoop(p, k)) == Assembled(p.(m := Raised(p.m, k)))
    decreases p.m
  {
    var m := p.m;
    if k < m.node.key && m.left.Branch? {
      if m.left.node.key <= k {
        LoopRaises(LinkedLeft(p), k);
      } else {
        var q := p.(m := RightRotated(m));
        if q.m.left.Branch? { LoopRaises(LinkedLeft(q), k); }
      }
    } else if m.node.key < k && m.right.Branch? {
      if k <= m.right.node.key {
        LoopRaises(LinkedRight(p), k);
      } else {
        var q := p.(m := LeftRotated(m));
        if q.m.right.Branch? { LoopRaises(LinkedRight(q), k); }
      }
    } else {
    }
  }

  /** The loop that works from the top down leaves the tree that rotating the searched node
      up would leave. */
  lemma SplayedIsRaised(t: Tree, k: int)
    requires t.Branch?
    ensures Splayed(t, k) == Raised(t, k)
  {
    LoopRaises(Pieces(End, t, End, 0, 0), k);
  }

  // ---------- what one splay costs ----------

  /** The steps of a splay, and the weight it leaves, are paid for by the weight before it
      and three times the logarithm of the size, plus one. */
  lemma {:induction false} RaisedPaid(t: Tree, k: int)
    requires t.Branch?
    ensures Paid(Pow2(Steps(t, k)), Raised(t, k), t)
    decreases t, 1
  {
    hide Paid;
    if k < t.node.key && t.left.Branch? {
      RaisedPaidLeft(t, k);
    } else if t.node.key < k && t.right.Branch? {
      RaisedPaidRight(t, k);
    } else {
      PaidAlone(t);
      assert Steps(t, k) == 1 && Pow2(1) == 2;
    }
  }

  lemma Pow2Steps(n: nat)
    ensures Pow2(2 + n) == 4 * Pow2(n) && Pow2(3 + n) == 8 * Pow2(n)
    ensures Pow2(2) == 4 && Pow2(3) == 8
  {
  }

  lemma {:induction false} RaisedPaidLeft(t: Tree, k: int)
    requires t.Branch? && k < t.node.key && t.left.Branch?
    ensures Paid(Pow2(Steps(t, k)), Raised(t, k), t)
    decreases t, 0
  {
    hide Paid, Size, Pow2;
    var l := t.left;
    if k < l.node.key && l.left.Branch? {
      RaisedPaid(l.left, k);
      RaisedSize(l.left, k);
      Pow2Steps(Steps(l.left, k));
      ZigZigLeft(Pow2(Steps(l.left, k)), Raised(l.left, k), l.left, l.node, l.right, t.node, t.right);
    } else if l.node.key < k && l.right.Branch? {
      var w := l.right;
      if k <= w.node.key {
        RaisedPaid(w, k);
        RaisedSize(w, k);
        Pow2Steps(Steps(w, k));
        ZigZagLeft(Pow2(Steps(w, k)), Raised(w, k), l.left, l.node, w, t.node, t.right);
      } else if w.right.Leaf? {
        Pow2Steps(0);
        assert Steps(w, k) == 1;
        LastZagLeft(l.left, l.node, w.left, w.node, t.node, t.right);
      } else {
        RaisedPaid(w.right, k);
        RaisedSize(w.right, k);
        Pow2Steps(Steps(w.right, k));
        ZigZagZagLeft(Pow2(Steps(w.right, k)), Raised(w.right, k),
                      l.left, l.node, w.left, w.node, w.right, t.node, t.right);
      }
    } else {
      Pow2Steps(0);
      LastTurnLeft(l.left, l.node, l.right, t.node, t.right);
    }
  }

  lemma {:induction false} RaisedPaidRight(t: Tree, k: int)
    requires t.Branch? && t.node.key < k && t.right.Branch?
    ensures Paid(Pow2(Steps(t, k)), Raised(t, k), t)
    decreases t, 0
  {
    hide Paid, Size, Pow2;
    var r := t.right;
    if r.node.key < k && r.right.Branch? {
      RaisedPaid(r.right, k);
      RaisedSize(r.right, k);
      Pow2Steps(Steps(r.right, k));
      ZigZigRight(Pow2(Steps(r.right, k)), Raised(r.right, k), t.left, t.node, r.left, r.node, r.right);
    } else if k < r.node.key && r.left.Branch? {
      var w := r.left;
      if w.node.key <= k {
        RaisedPaid(w, k);
        RaisedSize(w, k);
        Pow2Steps(Steps(w, k));
        ZigZagRight(Pow2(Steps(w, k)), Raised(w, k), t.left, t.node, w, r.node, r.right);
      } else if w.left.Leaf? {
        Pow2Steps(0);
        assert Steps(w, k) == 1;
        LastZagRight(t.left, t.node, w.node, w.right, r.node, r.right);
      } else {
        RaisedPaid(w.left, k);
        RaisedSize(w.left, k);
        Pow2Steps(Steps(w.left, k));
        ZigZagZagRight(Pow2(Steps(w.left, k)), Raised(w.left, k),
                       t.left, t.node, w.left, w.node, w.right, r.node, r.right);
      }
    } else {
      Pow2Steps(0);
      LastTurnRight(t.left, t.node, r.left, r.node, r.right);
    }
  }

  lemma SplayPaid(t: Tree, k: int)
    requires t.Branch?
    ensures Paid(Pow2(Steps(t, k)), Splayed(t, k), t)
    ensures Splayed(t, k).Branch? && Size(Splayed(t, k)) == Size(t)
  {
    hide Paid, Splayed, Raised, Size, Steps, Pow2;
    SplayedIsRaised(t, k);
    RaisedPaid(t, k);
    RaisedSize(t, k);
  }

  // ---------- what one operation costs ----------

  /** What two splays of a tree of at most `n` elements may cost: twice 3 lg (n + 1) + 1. */
  ghost function Budget(n: nat): nat {
    2 * Cube(n + 1) * (2 * Cube(n + 1))
  }

  /** `steps` steps that turn the tree `before` into `after` are within the budget, once the
      change of weight is added to them. */
  ghost predicate Afforded(steps: nat, after: Tree, before: Tree, n: nat) {
    Pow2(steps) * Weight(after) <= Budget(n) * Weight(before)
  }

  lemma CubeMonotone(m: nat, n: nat)
    requires m <= n
    ensures Cube(m) <= Cube(n)
  {
    MulMonotone(m, n, m, n);
    MulMonotone(m * m, n * n, m, n);
  }

  lemma BudgetMonotone(m: nat, n: nat)
    requires m <= n
    ensures Budget(m) <= Budget(n)
  {
    hide Cube;
    CubeMonotone(m + 1, n + 1);
    MulMonotone(2 * Cube(m + 1), 2 * Cube(n + 1), 2 * Cube(m + 1), 2 * Cube(n + 1));
  }

  lemma ThenIdentity(p: nat, q: nat, x: nat, w: nat, a: nat, b: nat, v: nat)
    ensures (q * x) * p == (p * q) * x
    ensures (b * w) * p == (p * w) * b
    ensures (a * v) * b == (a * b) * v
  {
  }

  /** One splay, and then a change that multiplies the weight by at most `b`. */
  lemma SplayThen(p: nat, w: nat, q: nat, x: nat, v: nat, a: nat, b: nat, c: nat)
    requires p * w <= a * v && q * x <= b * w && a * b <= c
    ensures (p * q) * x <= c * v
  {
    MulMonotone(q * x, b * w, p, p);
    MulMonotone(p * w, a * v, b, b);
    MulMonotone(a * b, c, v, v);
    ThenIdentity(p, q, x, w, a, b, v);
  }

  lemma WithinBudget(n: nat, b: nat)
    requires b <= 2 * Cube(n + 1)
    ensures 2 * Cube(n) * b <= Budget(n)
  {
    CubeMonotone(n, n + 1);
    hide Cube;
    MulMonotone(2 * Cube(n), 2 * Cube(n + 1), b, 2 * Cube(n + 1));
  }

  /** What a splay costs, in the steps that were taken. */
  lemma SplayWeighs(t: Tree, k: int, steps: nat)
    requires t.Branch? && steps <= Steps(t, k)
    ensures Pow2(steps) * Weight(Splayed(t, k)) <= 2 * Cube(Size(t)) * Weight(t)
  {
    hide *;
    SplayPaid(t, k);
    PaidMeans(Pow2(Steps(t, k)), Splayed(t, k), t);
    Pow2Monotone(steps, Steps(t, k));
    MulMonotone(Pow2(steps), Pow2(Steps(t, k)), Weight(Splayed(t, k)), Weight(Splayed(t, k)));
  }

  lemma SplayAffords(t: Tree, k: int, steps: nat, after: Tree, more: nat, b: nat)
    requires t.Branch? && steps <= Steps(t, k)
    requires Pow2(more) * Weight(after) <= b * Weight(Splayed(t, k)) && b <= 2 * Cube(Size(t) + 1)
    ensures Afforded(steps + more, after, t, Size(t))
  {
    hide *;
    SplayWeighs(t, k, steps);
    WithinBudget(Size(t), b);
    SplayThen(Pow2(steps), Weight(Splayed(t, k)), Pow2(more), Weight(after), Weight(t),
              2 * Cube(Size(t)), b, Budget(Size(t)));
    Pow2Add(steps, more);
    AffordedMeans(steps + more, after, t, Size(t));
  }

  lemma PaidMeans(p: nat, after: Tree, before: Tree)
    ensures Paid(p, after, before) <==> p * Weight(after) <= 2 * Cube(Size(before)) * Weight(before)
  {
  }

  lemma AffordedMeans(steps: nat, after: Tree, before: Tree, n: nat)
    ensures Afforded(steps, after, before, n) <==> Pow2(steps) * Weight(after) <= Budget(n) * Weight(before)
  {
  }

  lemma CubeAtLeast(n: nat)
    ensures n + 1 <= Cube(n + 1)
  {
    MulMonotone(1, n + 1, n + 1, n + 1);
    MulMonotone(n + 1, (n + 1) * (n + 1), 1, n + 1);
  }

  /** A lookup is one splay. */
  lemma LookupAffords(t: Tree, k: int, steps: nat)
    requires t.Branch? && steps <= Steps(t, k)
    ensures Afforded(steps, Splayed(t, k), t, Size(t))
  {
    hide Steps, Splayed, Size, Weight, Cube, Afforded;
    CubeAtLeast(Size(t));
    SplayAffords(t, k, steps, Splayed(t, k), 0, 1);
  }

  lemma SplitNumbers(n: nat, r: nat, a: nat, b: nat)
    requires r <= n
    ensures Mul(n + 1, Mul(a, Mul(r, Mul(1, b)))) <= (n + 1) * Mul(n, Mul(a, b))
    ensures Mul(n + 1, Mul(Mul(r, Mul(a, 1)), b)) <= (n + 1) * Mul(n, Mul(a, b))
  {
    MulMonotone(r, n, (n + 1) * (a * b), (n + 1) * (a * b));
    SplitIdentity(n, r, a, b);
  }

  lemma SplitIdentity(n: nat, r: nat, a: nat, b: nat)
    ensures Mul(n + 1, Mul(a, Mul(r, Mul(1, b)))) == r * ((n + 1) * (a * b))
    ensures Mul(n + 1, Mul(Mul(r, Mul(a, 1)), b)) == r * ((n + 1) * (a * b))
    ensures (n + 1) * Mul(n, Mul(a, b)) == n * ((n + 1) * (a * b))
  {
  }

  lemma SplitWeight(t: Tree, n: Node)
    requires t.Branch?
    ensures Weight(SplitBefore(t, n)) <= (Size(t) + 1) * Weight(t)
    ensures Weight(SplitAfter(t, n)) <= (Size(t) + 1) * Weight(t)
  {
    hide Size, Weight, Mul;
    var a, b := Branch(Leaf, t.node, t.right), Branch(t.left, t.node, Leaf);
    SizeStep(t.left, t.node, t.right);
    SizeStep(Leaf, t.node, t.right);
    SizeStep(t.left, n, a);
    SizeStep(t.left, t.node, Leaf);
    SizeStep(b, n, t.right);
    WeightStep(t.left, t.node, t.right);
    WeightStep(Leaf, t.node, t.right);
    WeightStep(t.left, n, a);
    WeightStep(t.left, t.node, Leaf);
    WeightStep(b, n, t.right);
    SplitNumbers(Size(t), Size(a), Weight(t.left), Weight(t.right));
    SplitNumbers(Size(t), Size(b), Weight(t.left), Weight(t.right));
  }

  /** An insertion is one splay and a split at the root. */
  lemma InsertAffords(t: Tree, k: int, steps: nat, n: Node, after: Tree)
    requires t.Branch? && steps <= Steps(t, k)
    requires after == SplitBefore(Splayed(t, k), n) || after == SplitAfter(Splayed(t, k), n)
    ensures Afforded(steps, after, t, Size(t))
  {
    hide Steps, Splayed, Size, Weight, Cube, Afforded, SplitBefore, SplitAfter;
    SplayPaid(t, k);
    SplitWeight(Splayed(t, k), n);
    CubeAtLeast(Size(t));
    SplayAffords(t, k, steps, after, 0, Size(t) + 1);
  }

  lemma FirstAffords(n: Node)
    ensures Afforded(0, Branch(Leaf, n, Leaf), Leaf, 0)
  {
    SizeStep(Leaf, n, Leaf);
    WeightStep(Leaf, n, Leaf);
    assert Mul(1, Mul(1, 1)) == 1 && Cube(1) == 1;
  }

  lemma NothingAffords(n: nat)
    ensures Afforded(0, Leaf, Leaf, n)
  {
    CubeMonotone(1, n + 1);
    MulMonotone(1, 2 * Cube(n + 1), 1, 2 * Cube(n + 1));
  }

  lemma JoinPart(a: nat, m: nat, n: nat, l: nat)
    requires 1 <= m <= n && a * m <= 2 * Cube(m) * l
    ensures a <= 2 * Cube(n) * l
  {
    hide Cube;
    CubeMonotone(m, n);
    MulMonotone(a, a, 1, m);
    MulMonotone(2 * Cube(m), 2 * Cube(n), l, l);
  }

  lemma JoinGrown(g: nat, h: nat, s: nat, n: nat, r: nat)
    requires g <= h && s <= n
    ensures g * (s * r) <= h * (n * r)
  {
    MulMonotone(s, n, r, r);
    MulMonotone(g, h, s * r, n * r);
  }

  lemma JoinNumbers(q: nat, m: nat, s: nat, n: nat, a: nat, l: nat, r: nat)
    requires 1 <= m <= n && s <= n
    requires q * Mul(m, Mul(a, 1)) <= 2 * Cube(m) * l
    ensures q * Mul(s, Mul(a, r)) <= 2 * Cube(n) * Mul(n, Mul(l, r))
  {
    hide *;
    JoinIdentity(q, m, s, n, a, l, r, Cube(n));
    JoinPart(q * a, m, n, l);
    JoinGrown(q * a, 2 * Cube(n) * l, s, n, r);
  }

  lemma JoinIdentity(q: nat, m: nat, s: nat, n: nat, a: nat, l: nat, r: nat, c: nat)
    ensures q * Mul(m, Mul(a, 1)) == (q * a) * m
    ensures q * Mul(s, Mul(a, r)) == (q * a) * (s * r)
    ensures 2 * c * Mul(n, Mul(l, r)) == (2 * c * l) * (n * r)
  {
  }

  /** The root goes, and the left subtree, splayed, takes over the right one. */
  lemma JoinWeight(t: Tree, k: int, more: nat)
    requires t.Branch? && t.left.Branch? && more <= Steps(t.left, k)
    requires Splayed(t.left, k).Branch? && Splayed(t.left, k).right.Leaf?
    ensures
      var u := Splayed(t.left, k);
      Pow2(more) * Weight(Branch(u.left, u.node, t.right)) <= 2 * Cube(Size(t)) * Weight(t)
  {
    hide *;
    var u := Splayed(t.left, k);
    var after := Branch(u.left, u.node, t.right);
    SplayPaid(t.left, k);
    PaidMeans(Pow2(Steps(t.left, k)), u, t.left);
    Pow2Monotone(more, Steps(t.left, k));
    MulMonotone(Pow2(more), Pow2(Steps(t.left, k)), Weight(u), Weight(u));
    SizeStep(t.left, t.node, t.right);
    SizeStep(u.left, u.node, u.right);
    SizeStep(u.left, u.node, t.right);
    WeightStep(t.left, t.node, t.right);
    WeightStep(u.left, u.node, u.right);
    WeightStep(u.left, u.node, t.right);
    JoinNumbers(Pow2(more), Size(t.left), Size(after), Size(t), Weight(u.left), Weight(t.left), Weight(t.right));
  }

  /** A removal is one splay and, below the root that goes, a second one. */
  lemma RemoveAffords(t: Tree, k: int, steps: nat, more: nat, after: Tree)
    requires t.Branch? && steps <= Steps(t, k) && Splayed(t, k).Branch?
    requires
      var u := Splayed(t, k);
      if u.left.Leaf? then more == 0 && after == u.right
      else
        var v := Splayed(u.left, k);
        v.Branch? && v.right.Leaf? && more <= Steps(u.left, k) && after == Branch(v.left, v.node, u.right)
    ensures Afforded(steps + more, after, t, Size(t))
  {
    hide Steps, Splayed, Size, Weight, Cube, Afforded, Pow2, Mul;
    var u := Splayed(t, k);
    SplayPaid(t, k);
    if u.left.Leaf? {
      WeightStep(u.left, u.node, u.right);
      RightWeight(u);
      CubeAtLeast(Size(t));
      NoMore();
      SplayAffords(t, k, steps, after, 0, 1);
    } else {
      JoinWeight(u, k, more);
      CubeMonotone(Size(t), Size(t) + 1);
      SplayAffords(t, k, steps, after, more, 2 * Cube(Size(t)));
    }
  }

  lemma NoMore()
    ensures Pow2(0) == 1
  {
  }

  lemma RightWeight(t: Tree)
    requires t.Branch? && t.left.Leaf?
    ensures Weight(t.right) <= Weight(t)
  {
    MulMonotone(1, Size(t), Weight(t.right), Weight(t.right));
  }

  // ---------- the start of a run ----------

  /** The weight of a tree of n nodes is at most n to the n. */
  lemma {:induction false} WeightBound(t: Tree)
    ensures Weight(t) <= Power(Size(t), Size(t))
  {
    if t.Leaf? {
    } else {
      var n, l, r := Size(t), Size(t.left), Size(t.right);
      WeightBound(t.left);
      WeightBound(t.right);
      PowerMonotone(l, n, l);
      PowerMonotone(r, n, r);
      PowerAdd(n, l, r);
      MulMonotone(Weight(t.left), Power(n, l), Weight(t.right), Power(n, r));
      MulMonotone(n, n, Weight(t.left) * Weight(t.right), Power(n, l + r));
    }
  }

  /** A round of the splay loop leaves behind at least one step of the search. */
  lemma RoundSteps(t: Tree, k: int)
    requires t.Branch?
    ensures Steps(t, k) >= 1
    ensures k < t.node.key && t.left.Branch? ==>
      && Steps(t, k) == 1 + Steps(t.left, k)
      && (k < t.left.node.key ==> Steps(t, k) == 2 + Steps(t.left.left, k))
    ensures t.node.key < k && t.right.Branch? ==>
      && Steps(t, k) == 1 + Steps(t.right, k)
      && (t.right.node.key < k ==> Steps(t, k) == 2 + Steps(t.right.right, k))
  {
  }
}
