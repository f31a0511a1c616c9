/**
  Both trees, driven by the same operations, against the one specification.
 */
module Refinement {
  import opened OrderedSet
  import RB = RedBlackShape
  import opened RedBlackTrees
  import opened Sequences
  import SP = SplayShape
  import opened SplayBalance
  import opened SplayTrees

  ghost function RedBlackKeys(tree: RedBlackTree): set<int>
    reads tree
  {
    KeySet(tree.contents, RB.Key)
  }

  ghost function SplayKeys(tree: SplayTree): set<int>
    reads tree
  {
    KeySet(tree.contents, SP.Key)
  }

  /** One operation on the red-black tree; a removal removes the node that a lookup found. */
  method RedBlackStep(tree: RedBlackTree, op: Op) returns (answer: bool)
    requires tree.Valid()
    modifies tree, tree.repr
    ensures tree.Valid() && fresh(tree.repr - old(tree.repr))
    ensures op.Insert? ==> RedBlackKeys(tree) == old(RedBlackKeys(tree)) + {op.key}
    ensures op.Remove? ==> RedBlackKeys(tree) == old(RedBlackKeys(tree)) - {op.key}
    ensures op.Find? ==> RedBlackKeys(tree) == old(RedBlackKeys(tree))
    ensures answer <==> if op.Insert? then op.key !in old(RedBlackKeys(tree)) else op.key in old(RedBlackKeys(tree))
  {
    hide RedBlackTree.Valid, Inserted, KeySet, Keys, Ascending;
    var probe := new RB.Node(op.key);
    ghost var was := tree.contents;
    tree.ReprIsContents();
    KeyMissing(was, op.key, RB.Key);
    match op {
      case Insert(k) =>
        var res, _ := tree.Insert(probe);
        answer := res == null;
        if answer {
          InsertedKeys(was, probe, tree.contents, RB.Key);
        }
      case Remove(k) =>
        var res, _ := tree.Find(probe);
        answer := res != null;
        if answer {
          ghost var gone: RB.Node := res;
          tree.ValidAscending();
          var r, _ := tree.Remove(res);
          RemovedKeys<RB.Node>(tree.contents, gone, was, RB.Key);
        }
      case Find(k) =>
        var res, _ := tree.Find(probe);
        answer := res != null;
    }
  }

  /** The same operation on the splay tree. */
  method SplayStep(tree: SplayTree, op: Op) returns (answer: bool, ghost steps: nat)
    requires tree.Valid()
    modifies tree, tree.repr
    ensures tree.Valid() && fresh(tree.repr - old(tree.repr))
    ensures op.Insert? ==> SplayKeys(tree) == old(SplayKeys(tree)) + {op.key}
    ensures op.Remove? ==> SplayKeys(tree) == old(SplayKeys(tree)) - {op.key}
    ensures op.Find? ==> SplayKeys(tree) == old(SplayKeys(tree))
    ensures answer <==> if op.Insert? then op.key !in old(SplayKeys(tree)) else op.key in old(SplayKeys(tree))
    ensures Afforded(steps, tree.shape, old(tree.shape), |old(SplayKeys(tree))|)
  {
    hide SplayTree.Valid, Inserted, Afforded, KeySet, Keys, Ascending;
    var probe := new SP.Node(op.key);
    ghost var was := tree.contents;
    tree.ValidAscending();
    KeySetSize(was, SP.Key);
    KeyMissing(was, op.key, SP.Key);
    match op {
      case Insert(k) =>
        var res;
        res, steps := tree.Insert(probe);
        answer := res == null;
        if answer {
          InsertedKeys(was, probe, tree.contents, SP.Key);
        }
      case Remove(k) =>
        ghost var gone;
        var res;
        res, gone, steps := tree.Remove(probe);
        answer := res != null;
        if answer {
          RemovedKeys<SP.Node>(tree.contents, gone, was, SP.Key);
        }
      case Find(k) =>
        var res;
        res, steps := tree.Find(probe);
        answer := res != null;
    }
  }

  /** Any run of operations on the two trees gives the answers of the set, and both end
      with the keys of the set in ascending order. */
  method RunBoth(ops: seq<Op>) returns (a: RedBlackTree, b: SplayTree, answersA: seq<bool>, answersB: seq<bool>)
    ensures a.Valid() && b.Valid()
    ensures Truthful({}, ops, answersA) && Truthful({}, ops, answersB)
    ensures forall k :: (exists n :: n in a.contents && n.key == k) <==> Present({}, ops, |ops|, k)
    ensures forall k :: (exists n :: n in b.contents && n.key == k) <==> Present({}, ops, |ops|, k)
    ensures |a.contents| == |b.contents|
    ensures forall i | 0 <= i < |a.contents| :: a.contents[i].key == b.contents[i].key
  {
    hide RedBlackTree.Valid, SplayTree.Valid, Final, Answers, Present, Truthful, KeySet, Ascending;
    a := new RedBlackTree();
    b := new SplayTree();
    answersA, answersB := [], [];
    RunNothing(ops);
    NoKeys(RB.Key);
    NoKeys(SP.Key);
    var i := 0;
    while i < |ops|
      invariant 0 <= i <= |ops| && a.Valid() && b.Valid()
      invariant fresh(a) && fresh(b) && fresh(a.repr) && fresh(b.repr)
      invariant answersA == Answers({}, ops[..i]) && answersB == Answers({}, ops[..i])
      invariant RedBlackKeys(a) == Final({}, ops[..i]) == SplayKeys(b)
    {
      RunStep({}, ops, i);
      var x := RedBlackStep(a, ops[i]);
      var y, _ := SplayStep(b, ops[i]);
      answersA, answersB := answersA + [x], answersB + [y];
      i := i + 1;
    }
    assert ops[..|ops|] == ops;
    a.ValidAscending();
    b.ValidAscending();
    SameEnumeration(a.contents, b.contents);
    AnswersTruthful({}, ops);
    forall k
      ensures (exists n :: n in a.contents && n.key == k) <==> Present({}, ops, |ops|, k)
      ensures (exists n :: n in b.contents && n.key == k) <==> Present({}, ops, |ops|, k)
    {
      KeyMissing(a.contents, k, RB.Key);
      KeyMissing(b.contents, k, SP.Key);
    }
  }

  lemma RunNothing(ops: seq<Op>)
    ensures Final({}, ops[..0]) == {} && Answers({}, ops[..0]) == []
  {
  }

  /** Two ascending enumerations of the same keys agree place by place. */
  lemma SameEnumeration(s: seq<RB.Node>, t: seq<SP.Node>)
    requires Ascending(s, RB.Key) && Ascending(t, SP.Key)
    requires KeySet(s, RB.Key) == KeySet(t, SP.Key)
    ensures |s| == |t| && forall i | 0 <= i < |s| :: s[i].key == t[i].key
  {
    KeysAscending(s, RB.Key);
    KeysAscending(t, SP.Key);
    assert forall k :: k in Keys(s, RB.Key) <==> k in KeySet(s, RB.Key);
    assert forall k :: k in Keys(t, SP.Key) <==> k in KeySet(t, SP.Key);
    SortedUnique(Keys(s, RB.Key), Keys(t, SP.Key));
    assert forall i | 0 <= i < |s| :: Keys(s, RB.Key)[i] == s[i].key;
  }
}
