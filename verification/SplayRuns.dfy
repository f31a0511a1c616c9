/**
  The balance theorem, for runs of operations on a splay tree in the heap.
 */
module SplayRuns {
  import opened Arithmetic
  import opened OrderedSet
  import opened Refinement
  import opened Sequences
  import SP = SplayShape
  import opened SplayBalance
  import opened SplayTrees
  import opened SplayWeight

  /** What `i` operations took is paid for by the budget of each and the weight at the start. */
  ghost predicate Within(total: nat, last: SP.Tree, first: SP.Tree, n: nat, i: nat) {
    Pow2(total) * Weight(last) <= Power(Budget(n), i) * Weight(first)
  }

  /** The bound for `i` operations on a tree that starts with `m` elements and never holds
      more than `n`: with l = lg (n + 1) rounded up, 6 l + 2 for each operation and l for each
      element at the start. */
  ghost predicate Balanced(total: nat, i: nat, n: nat, m: nat) {
    forall l: nat | n + 1 <= Pow2(l) :: total <= (6 * l + 2) * i + l * m
  }

  /** Any run of operations, on any tree, while it never holds more than `n` keys: each
      operation may take 6 lg (n + 1) + 2 steps, and what the run takes beyond that the
      weight of the tree it starts from pays for. */
  method SplayRun(tree: SplayTree, ops: seq<Op>, ghost n: nat) returns (answers: seq<bool>, ghost total: nat)
    requires tree.Valid()
    requires forall i | 0 <= i <= |ops| :: |Final(SplayKeys(tree), ops[..i])| <= n
    modifies tree, tree.repr
    ensures tree.Valid() && fresh(tree.repr - old(tree.repr))
    ensures Truthful(old(SplayKeys(tree)), ops, answers)
    ensures forall k :: k in SplayKeys(tree) <==> Present(old(SplayKeys(tree)), ops, |ops|, k)
    ensures Within(total, tree.shape, old(tree.shape), n, |ops|)
    ensures Balanced(total, |ops|, n, |old(tree.contents)|)
  {
    tree.LookSize();
    tree.ValidAscending();
    hide SplayTree.Valid, Final, Answers, Present, Truthful, Within, Balanced;
    ghost var s, first := SplayKeys(tree), tree.shape;
    KeySetSize(tree.contents, SP.Key);
    KeysAtStart(s, ops, n);
    answers, total := RunAll(tree, ops, n);
    AnswersTruthful(s, ops);
    RunBound(total, tree.shape, first, n, |ops|);
  }

  method RunAll(tree: SplayTree, ops: seq<Op>, ghost n: nat) returns (answers: seq<bool>, ghost total: nat)
    requires tree.Valid()
    requires forall i | 0 <= i <= |ops| :: |Final(SplayKeys(tree), ops[..i])| <= n
    modifies tree, tree.repr
    ensures tree.Valid() && fresh(tree.repr - old(tree.repr))
    ensures answers == Answers(old(SplayKeys(tree)), ops)
    ensures SplayKeys(tree) == Final(old(SplayKeys(tree)), ops)
    ensures Within(total, tree.shape, old(tree.shape), n, |ops|)
  {
    hide SplayTree.Valid, Final, Answers, Within, Afforded, SplayKeys;
    answers, total := [], 0;
    ghost var s, first := SplayKeys(tree), tree.shape;
    RunStart(s, ops, n, first);
    var i := 0;
    while i < |ops|
      invariant 0 <= i <= |ops| && tree.Valid() && fresh(tree.repr - old(tree.repr))
      invariant answers == Answers(s, ops[..i]) && SplayKeys(tree) == Final(s, ops[..i])
      invariant Within(total, tree.shape, first, n, i)
    {
      RunStep(s, ops, i);
      ghost var before := tree.shape;
      ghost var keys := SplayKeys(tree);
      assert |keys| <= n;
      var x, steps := SplayStep(tree, ops[i]);
      RunOn(total, steps, first, before, tree.shape, |keys|, n, i);
      answers, total := answers + [x], total + steps;
      i := i + 1;
    }
    assert ops[..|ops|] == ops;
  }

  /** Before the first operation. */
  lemma RunStart(s: set<int>, ops: seq<Op>, n: nat, first: SP.Tree)
    ensures Final(s, ops[..0]) == s && Answers(s, ops[..0]) == []
    ensures Within(0, first, first, n, 0)
  {
  }

  /** One more operation within the budget. */
  lemma RunOn(total: nat, steps: nat, first: SP.Tree, before: SP.Tree, after: SP.Tree, m: nat, n: nat, i: nat)
    requires Within(total, before, first, n, i) && Afforded(steps, after, before, m) && m <= n
    ensures Within(total + steps, after, first, n, i + 1)
  {
    hide *;
    WithinMeans(total, before, first, n, i);
    WithinMeans(total + steps, after, first, n, i + 1);
    AffordedMeans(steps, after, before, m);
    BudgetMonotone(m, n);
    MulMonotone(Budget(m), Budget(n), Weight(before), Weight(before));
    Pow2Add(total, steps);
    PowerStep(Budget(n), i);
    SplayThen(Pow2(total), Weight(before), Pow2(steps), Weight(after), Weight(first),
              Power(Budget(n), i), Budget(n), Power(Budget(n), i + 1));
  }

  lemma WithinMeans(total: nat, last: SP.Tree, first: SP.Tree, n: nat, i: nat)
    ensures Within(total, last, first, n, i) <==>
      Pow2(total) * Weight(last) <= Power(Budget(n), i) * Weight(first)
  {
  }

  lemma PowerStep(b: nat, e: nat)
    ensures Power(b, e + 1) == Power(b, e) * b
  {
  }

  lemma KeysAtStart(s: set<int>, ops: seq<Op>, n: nat)
    requires forall i | 0 <= i <= |ops| :: |Final(s, ops[..i])| <= n
    ensures |s| <= n
  {
    assert Final(s, ops[..0]) == s;
  }

  /** The weight left at the end is at least one, and the weight at the start at most n to
      the n, for n elements. */
  lemma RunBound(total: nat, last: SP.Tree, first: SP.Tree, n: nat, i: nat)
    requires Within(total, last, first, n, i) && Size(first) <= n
    ensures Balanced(total, i, n, Size(first))
  {
    hide Within, Weight, Power, Pow2, Budget, Size;
    var b, m := Power(Budget(n), i), Size(first);
    WithinMeans(total, last, first, n, i);
    WeightPositive(last);
    WeightBound(first);
    MulMonotone(Pow2(total), Pow2(total), 1, Weight(last));
    MulMonotone(b, b, Weight(first), Power(m, m));
    forall l: nat | n + 1 <= Pow2(l)
      ensures total <= (6 * l + 2) * i + l * m
    {
      InLogarithms(total, i, n, m, l);
    }
  }

  /** The bound on the product, read as a bound on the sum. */
  lemma InLogarithms(total: nat, i: nat, n: nat, m: nat, l: nat)
    requires Pow2(total) <= Power(Budget(n), i) * Power(m, m) && m <= n && n + 1 <= Pow2(l)
    ensures total <= (6 * l + 2) * i + l * m
  {
    hide *;
    BudgetInLogarithms(n, l);
    PowerMonotone(Budget(n), Pow2(6 * l + 2), i);
    PowerMonotone(m, Pow2(l), m);
    PowerOfPow2(6 * l + 2, i);
    PowerOfPow2(l, m);
    MulMonotone(Power(Budget(n), i), Pow2((6 * l + 2) * i), Power(m, m), Pow2(l * m));
    Pow2Add((6 * l + 2) * i, l * m);
    Pow2Reflects(total, (6 * l + 2) * i + l * m);
  }

  lemma BudgetInLogarithms(n: nat, l: nat)
    requires n + 1 <= Pow2(l)
    ensures Budget(n) <= Pow2(6 * l + 2)
  {
    CubeMonotone(n + 1, Pow2(l));
    CubeOfPow2(l);
    Pow2Add(3 * l, 1);
    Pow2Add(3 * l + 1, 3 * l + 1);
    assert 2 * Cube(n + 1) <= Pow2(3 * l + 1) && (3 * l + 1) + (3 * l + 1) == 6 * l + 2;
    hide Cube, Pow2;
    MulMonotone(2 * Cube(n + 1), Pow2(3 * l + 1), 2 * Cube(n + 1), Pow2(3 * l + 1));
  }

  lemma CubeOfPow2(l: nat)
    ensures Cube(Pow2(l)) == Pow2(3 * l)
  {
    hide Pow2;
    Pow2Add(l, l);
    Pow2Add(l + l, l);
  }

  function Inserts(ops: seq<Op>): nat {
    if ops == [] then 0 else Inserts(ops[..|ops| - 1]) + if ops[|ops| - 1].Insert? then 1 else 0
  }

  lemma InsertsStep(ops: seq<Op>, i: nat)
    requires i < |ops|
    ensures Inserts(ops[..i + 1]) == Inserts(ops[..i]) + if ops[i].Insert? then 1 else 0
  {
    assert ops[..i + 1][..i] == ops[..i];
  }

  lemma NextSize(s: set<int>, op: Op)
    ensures |Next(s, op)| <= |s| + if op.Insert? then 1 else 0
  {
    match op
    case Insert(k) => assert s + {k} == if k in s then s else s + {k};
    case Remove(k) => assert s - {k} == if k in s then s - {k} else s;
    case Find(_) =>
  }

  /** A tree that starts empty never holds more keys than were put in. */
  lemma {:induction false} SizeByInserts(ops: seq<Op>, i: nat)
    requires i <= |ops|
    ensures |Final({}, ops[..i])| <= Inserts(ops[..i])
  {
    if i == 0 {
    } else {
      SizeByInserts(ops, i - 1);
      RunStep({}, ops, i - 1);
      InsertsStep(ops, i - 1);
      NextSize(Final({}, ops[..i - 1]), ops[i - 1]);
    }
  }

  lemma {:induction false} InsertsPrefix(ops: seq<Op>, i: nat)
    requires i <= |ops|
    ensures Inserts(ops[..i]) <= Inserts(ops)
    decreases |ops| - i
  {
    if i == |ops| {
      assert ops[..i] == ops;
    } else {
      InsertsPrefix(ops, i + 1);
      InsertsStep(ops, i);
    }
  }

  /** The balance theorem: a run of operations on an initially empty tree, n of them
      insertions, takes at most 6 lg (n + 1) + 2 steps for each operation. */
  method RunFromEmpty(ops: seq<Op>) returns (tree: SplayTree, answers: seq<bool>, ghost total: nat)
    ensures tree.Valid() && Truthful({}, ops, answers)
    ensures forall k :: k in SplayKeys(tree) <==> Present({}, ops, |ops|, k)
    ensures forall l: nat | Inserts(ops) + 1 <= Pow2(l) :: total <= (6 * l + 2) * |ops|
  {
    hide SplayTree.Valid, Final, Present, Truthful, Inserts, Budget, Pow2;
    tree := new SplayTree();
    assert SplayKeys(tree) == {};
    forall i | 0 <= i <= |ops|
      ensures |Final({}, ops[..i])| <= Inserts(ops)
    {
      SizeByInserts(ops, i);
      InsertsPrefix(ops, i);
    }
    answers, total := SplayRun(tree, ops, Inserts(ops));
  }
}
