/**
  The iteration macros over a red-black tree, as loops that record what they visit.
 */
module RedBlackLoops {
  import opened RedBlackShape
  import opened RedBlackTrees
  import opened Sequences

  /** RB_FOREACH */
  method Foreach(tree: RedBlackTree) returns (visited: seq<Node>)
    requires tree.Valid()
    ensures visited == tree.contents
  {
    hide RedBlackTree.Valid, Ascending, Distinct, Predecessor, Successor;
    tree.ReprIsContents();
    tree.ValidAscending();
    AscendingDistinct(tree.contents, Key);
    visited := [];
    var x, _ := tree.MinMax(-1);
    while x != null
      invariant |visited| <= |tree.contents| && visited == tree.contents[..|visited|]
      invariant x == if |visited| < |tree.contents| then tree.contents[|visited|] else null
      decreases |tree.contents| - |visited|
    {
      ghost var k := |visited|;
      visited := visited + [x];
      var y, _ := tree.Next(x);
      Neighbours(tree.contents, k, y, null);
      x := y;
    }
  }

  /** RB_FOREACH_REVERSE */
  method ForeachReverse(tree: RedBlackTree) returns (visited: seq<Node>)
    requires tree.Valid()
    ensures |visited| == |tree.contents|
    ensures forall i | 0 <= i < |visited| :: visited[i] == tree.contents[|visited| - 1 - i]
  {
    hide RedBlackTree.Valid, Ascending, Distinct, Predecessor, Successor;
    tree.ReprIsContents();
    tree.ValidAscending();
    AscendingDistinct(tree.contents, Key);
    visited := [];
    var x, _ := tree.MinMax(1);
    ghost var n := |tree.contents|;
    while x != null
      invariant |visited| <= n
      invariant forall i | 0 <= i < |visited| :: visited[i] == tree.contents[n - 1 - i]
      invariant x == if |visited| < n then tree.contents[n - 1 - |visited|] else null
      decreases n - |visited|
    {
      ghost var k := n - 1 - |visited|;
      visited := visited + [x];
      var y, _ := tree.Prev(x);
      Neighbours(tree.contents, k, y, null);
      x := y;
    }
  }

  /** What is left of `s` without the elements of `del`. */
  ghost function Kept(s: seq<Node>, del: set<Node>): seq<Node> {
    if s == [] then [] else
      Kept(s[..|s| - 1], del) + if s[|s| - 1] in del then [] else [s[|s| - 1]]
  }

  lemma KeptStep(s: seq<Node>, k: nat, del: set<Node>)
    requires k < |s|
    ensures Kept(s[..k + 1], del) == Kept(s[..k], del) + if s[k] in del then [] else [s[k]]
  {
    assert s[..k + 1][..k] == s[..k];
  }

  lemma {:induction false} KeptNone(s: seq<Node>, del: set<Node>)
    requires forall n <- s :: n in del
    ensures Kept(s, del) == []
  {
    if s == [] {
    } else {
      KeptNone(s[..|s| - 1], del);
    }
  }

  lemma {:induction false} KeptMembers(s: seq<Node>, del: set<Node>)
    ensures forall n :: n in Kept(s, del) <==> n in s && n !in del
  {
    if s == [] {
    } else {
      KeptMembers(s[..|s| - 1], del);
      assert s == s[..|s| - 1] + [s[|s| - 1]];
    }
  }

  /** One step of the safe loop, on contents: the visited part is `s[..k]`. */
  ghost predicate Midway(s: seq<Node>, k: nat, del: set<Node>, contents: seq<Node>) {
    k <= |s| && contents == Kept(s[..k], del) + s[k..]
  }

  lemma MidwayNext(s: seq<Node>, k: nat, del: set<Node>, contents: seq<Node>, y: Node?)
    requires Midway(s, k, del, contents) && k < |s| && Ascending(contents, Key) && Successor(contents, s[k], y, null)
    ensures s[k] in contents && y == if k + 1 < |s| then s[k + 1] else null
    ensures s[k] !in del ==> Midway(s, k + 1, del, contents)
  {
    hide Kept;
    var p := |Kept(s[..k], del)|;
    assert contents[p] == s[k] && contents[p..] == s[k..];
    assert k + 1 < |s| ==> contents[p + 1] == s[k + 1];
    AscendingDistinct(contents, Key);
    Neighbours(contents, p, y, null);
    KeptStep(s, k, del);
    assert s[k..] == [s[k]] + s[k + 1..];
  }

  lemma MidwayRemoved(s: seq<Node>, k: nat, del: set<Node>, contents: seq<Node>, left: seq<Node>)
    requires Midway(s, k, del, contents) && k < |s| && Ascending(contents, Key)
    requires s[k] in del && Inserted(left, s[k], contents)
    ensures Midway(s, k + 1, del, left)
  {
    hide Kept, Inserted;
    var p := |Kept(s[..k], del)|;
    assert contents[p] == s[k];
    AscendingDistinct(contents, Key);
    TakenOut(left, s[k], contents, p);
    KeptStep(s, k, del);
    assert contents[..p] == Kept(s[..k], del) && contents[p + 1..] == s[k + 1..];
  }

  /** RB_FOREACH_SAFE, with a body that removes the current element when it is in `del`. */
  method ForeachSafe(tree: RedBlackTree, del: set<Node>) returns (visited: seq<Node>)
    requires tree.Valid()
    modifies tree, tree.repr
    ensures tree.Valid() && visited == old(tree.contents)
    ensures tree.contents == Kept(old(tree.contents), del)
    ensures forall n :: n in tree.contents <==> n in old(tree.contents) && n !in del
  {
    hide Midway, Kept, Ascending, Successor, Inserted;
    ghost var s := tree.contents;
    visited := [];
    SafeStart(s, del);
    var x, _ := tree.MinMax(-1);
    while x != null
      invariant tree.Valid() && tree.repr <= old(tree.repr)
      invariant Midway(s, |visited|, del, tree.contents)
      invariant |visited| <= |s| && visited == s[..|visited|]
      invariant x == if |visited| < |s| then s[|visited|] else null
      decreases |s| - |visited|
    {
      tree.ReprIsContents();
      ghost var k, was := |visited|, tree.contents;
      assert x in tree.repr by { MidwayIn(s, k, del, was); }
      var y, _ := tree.Next(x);
      MidwayNext(s, k, del, was, y);
      visited := visited + [x];
      if x in del {
        var r, _ := tree.Remove(x);
        MidwayRemoved(s, k, del, was, tree.contents);
      }
      x := y;
    }
    SafeEnd(s, del, tree.contents);
    KeptMembers(s, del);
  }

  lemma SafeStart(s: seq<Node>, del: set<Node>)
    ensures Midway(s, 0, del, s)
  {
  }

  lemma MidwayIn(s: seq<Node>, k: nat, del: set<Node>, contents: seq<Node>)
    requires Midway(s, k, del, contents) && k < |s|
    ensures s[k] in contents
  {
    assert s[k] == s[k..][0];
  }

  lemma SafeEnd(s: seq<Node>, del: set<Node>, contents: seq<Node>)
    requires Midway(s, |s|, del, contents)
    ensures contents == Kept(s, del)
  {
    assert s[..|s|] == s;
  }

  /** Removing every element from inside the loop empties the tree. */
  method Drain(tree: RedBlackTree, all: set<Node>) returns (visited: seq<Node>)
    requires tree.Valid() && tree.repr <= all
    modifies tree, tree.repr
    ensures tree.Valid() && visited == old(tree.contents) && tree.contents == []
  {
    tree.ReprIsContents();
    visited := ForeachSafe(tree, all);
    KeptNone(visited, all);
  }

  // ---------- operations that undo or repeat each other ----------

  /** RB_NEXT and then RB_PREV: back where it started, unless `n` is the last element. */
  method ThereAndBack(tree: RedBlackTree, n: Node) returns (next: Node?, back: Node?)
    requires tree.Valid() && n in tree.repr
    ensures next == null <==> n == tree.contents[|tree.contents| - 1]
    ensures back == if next == null then null else n
  {
    hide RedBlackTree.Valid, Ascending, Distinct, Predecessor, Successor;
    tree.ReprIsContents();
    tree.ValidAscending();
    ghost var k :| 0 <= k < |tree.contents| && tree.contents[k] == n;
    ghost var steps;
    next, steps := tree.Next(n);
    AscendingDistinct(tree.contents, Key);
    Neighbours(tree.contents, k, next, null);
    back := null;
    if next != null {
      back, steps := tree.Prev(next);
      NextUndoesPrev(tree.contents, n, next, null);
      NeighboursUnique(tree.contents, next, n, back, null);
    }
  }

  /** RB_PREV and then RB_NEXT: back where it started, unless `n` is the first element. */
  method BackAndThere(tree: RedBlackTree, n: Node) returns (prev: Node?, there: Node?)
    requires tree.Valid() && n in tree.repr
    ensures prev == null <==> n == tree.contents[0]
    ensures there == if prev == null then null else n
  {
    hide RedBlackTree.Valid, Ascending, Distinct, Predecessor, Successor;
    tree.ReprIsContents();
    tree.ValidAscending();
    ghost var k :| 0 <= k < |tree.contents| && tree.contents[k] == n;
    ghost var steps;
    prev, steps := tree.Prev(n);
    AscendingDistinct(tree.contents, Key);
    Neighbours(tree.contents, k, prev, null);
    there := null;
    if prev != null {
      there, steps := tree.Next(prev);
      NextUndoesPrev(tree.contents, prev, n, null);
      NeighboursUnique(tree.contents, prev, n, there, null);
    }
  }

  /** RB_FIND and RB_NFIND for the same key: the same element when the key is present;
      otherwise the lower bound, if there is one, lies above the key. */
  method BothLookups(tree: RedBlackTree, probe: Node) returns (found: Node?, least: Node?)
    requires tree.Valid()
    ensures found != null ==> least == found && found.key == probe.key
    ensures found == null ==> least == null || probe.key < least.key
  {
    hide RedBlackTree.Valid, Ascending;
    tree.ValidAscending();
    ghost var steps;
    found, steps := tree.Find(probe);
    least, steps := tree.NFind(probe);
    if found != null {
      LookupsAgree(tree.contents, probe.key, found, least);
    }
  }
}
