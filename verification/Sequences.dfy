/**
  Sequences of elements, as the contents of an ordered tree.
 */
module Sequences {

  /** `r` is `s` with `x` put in at one place. */
  ghost predicate Inserted<T>(s: seq<T>, x: T, r: seq<T>) {
    exists i :: 0 <= i <= |s| && r == s[..i] + [x] + s[i..]
  }

  lemma InsertedBetween<T>(a: seq<T>, x: T, b: seq<T>)
    ensures Inserted(a + b, x, a + [x] + b)
  {
    assert (a + b)[..|a|] == a && (a + b)[|a|..] == b;
  }

  lemma InsertedInside<T>(p: seq<T>, a: seq<T>, x: T, b: seq<T>, q: seq<T>)
    ensures Inserted(p + (a + b) + q, x, p + (a + [x] + b) + q)
  {
    InsertedBetween(p + a, x, b + q);
    assert p + (a + b) + q == (p + a) + (b + q);
    assert p + (a + [x] + b) + q == (p + a) + [x] + (b + q);
  }

  lemma InsertedElements<T>(s: seq<T>, x: T, r: seq<T>)
    requires Inserted(s, x, r)
    ensures forall y :: y in r <==> y in s || y == x
    ensures |r| == |s| + 1
  {
    var i :| 0 <= i <= |s| && r == s[..i] + [x] + s[i..];
    assert s == s[..i] + s[i..];
  }

  ghost predicate Distinct<T>(s: seq<T>) {
    forall i, j :: 0 <= i < j < |s| ==> s[i] != s[j]
  }

  /** In a sequence without repetitions there is one way to take an element out. */
  lemma TakenOut<T>(s: seq<T>, x: T, r: seq<T>, k: int)
    requires Inserted(s, x, r) && Distinct(r) && 0 <= k < |r| && r[k] == x
    ensures s == r[..k] + r[k + 1..]
  {
    var i :| 0 <= i <= |s| && r == s[..i] + [x] + s[i..];
    assert r[i] == x;
    assert i == k;
    assert s == s[..i] + s[i..];
  }

  /** Taking out what was put in restores the sequence. */
  lemma RemovalUndoesInsertion<T>(s: seq<T>, x: T, r: seq<T>, u: seq<T>)
    requires Inserted(s, x, r) && Distinct(r) && Inserted(u, x, r)
    ensures u == s
  {
    var k :| 0 <= k <= |s| && r == s[..k] + [x] + s[k..];
    assert r[k] == x;
    TakenOut(s, x, r, k);
    TakenOut(u, x, r, k);
  }

  lemma RemovedElements<T>(s: seq<T>, x: T, r: seq<T>)
    requires Inserted(s, x, r) && Distinct(r)
    ensures forall y :: y in s <==> y in r && y != x
  {
    var i :| 0 <= i <= |s| && r == s[..i] + [x] + s[i..];
    assert r[i] == x;
    assert s == s[..i] + s[i..];
    assert forall j | 0 <= j < |s| :: s[j] == r[if j < i then j else j + 1];
  }

  lemma Pairing<T>(a: seq<T>, x: T, b: seq<T>)
    ensures a + [x] + b == a + ([x] + b)
    ensures [] + [x] + b == [x] + b
    ensures a + [x] + [] == a + [x]
  {
  }

  /** Concatenations regrouped around an element. */
  lemma Regroup<T>(a: seq<T>, b: seq<T>, x: T, c: seq<T>, d: seq<T>)
    ensures a + (b + [x] + c) + d == a + b + ([x] + c + d)
    ensures a + (b + [x] + c) + d == a + (b + [x]) + c + d
    ensures a + (b + [x] + c) + d == (a + b) + [x] + (c + d)
  {
  }

  // ---------- elements with keys ----------

  /** Strictly ascending keys: the search order, and no key twice. */
  ghost predicate Ascending<T>(s: seq<T>, key: T -> int) {
    forall i, j :: 0 <= i < j < |s| ==> key(s[i]) < key(s[j])
  }

  lemma AscendingDistinct<T>(s: seq<T>, key: T -> int)
    requires Ascending(s, key)
    ensures Distinct(s)
  {
    assert forall i, j :: 0 <= i < j < |s| ==> key(s[i]) < key(s[j]);
  }

  lemma AscendingParts<T>(a: seq<T>, x: T, b: seq<T>, key: T -> int)
    requires Ascending(a + [x] + b, key)
    ensures Ascending(a, key) && Ascending(b, key)
    ensures forall y <- a :: key(y) < key(x)
    ensures forall y <- b :: key(x) < key(y)
  {
    var s := a + [x] + b;
    assert s[|a|] == x;
    assert forall i | 0 <= i < |a| :: a[i] == s[i];
    assert forall i | 0 <= i < |b| :: b[i] == s[|a| + 1 + i];
  }

  lemma AscendingJoin<T>(a: seq<T>, x: T, b: seq<T>, key: T -> int)
    requires Ascending(a, key) && Ascending(b, key)
    requires forall y <- a :: key(y) < key(x)
    requires forall y <- b :: key(x) < key(y)
    ensures Ascending(a + [x] + b, key)
  {
  }

  /** Strict bounds around the keys of `s` and the key `k`. */
  lemma {:induction false} Bounds<T>(s: seq<T>, k: int, key: T -> int) returns (lo: int, hi: int)
    ensures lo < k < hi && forall x <- s :: lo < key(x) < hi
  {
    if s == [] {
      lo, hi := k - 1, k + 1;
    } else {
      lo, hi := Bounds(s[1..], k, key);
      assert forall x <- s :: x == s[0] || x in s[1..];
      lo := if key(s[0]) <= lo then key(s[0]) - 1 else lo;
      hi := if hi <= key(s[0]) then key(s[0]) + 1 else hi;
    }
  }

  ghost function Keys<T>(s: seq<T>, key: T -> int): (keys: seq<int>)
    ensures |keys| == |s| && forall i | 0 <= i < |s| :: keys[i] == key(s[i])
  {
    seq(|s|, i requires 0 <= i < |s| => key(s[i]))
  }

  ghost function KeySet<T>(s: seq<T>, key: T -> int): set<int> {
    set k | k in Keys(s, key)
  }

  lemma KeysAscending<T>(s: seq<T>, key: T -> int)
    requires Ascending(s, key)
    ensures Distinct(Keys(s, key))
    ensures forall i, j :: 0 <= i < j < |s| ==> Keys(s, key)[i] < Keys(s, key)[j]
  {
    assert forall i, j :: 0 <= i < j < |s| ==> key(s[i]) < key(s[j]);
  }

  lemma InsertedKeys<T>(s: seq<T>, x: T, r: seq<T>, key: T -> int)
    requires Inserted(s, x, r)
    ensures Inserted(Keys(s, key), key(x), Keys(r, key))
    ensures KeySet(r, key) == KeySet(s, key) + {key(x)}
  {
    var i :| 0 <= i <= |s| && r == s[..i] + [x] + s[i..];
    var a := Keys(s, key);
    assert Keys(r, key) == a[..i] + [key(x)] + a[i..];
    InsertedElements(a, key(x), Keys(r, key));
  }

  lemma NoKeys<T>(key: T -> int)
    ensures KeySet([], key) == {}
  {
  }

  lemma KeyMissing<T>(s: seq<T>, k: int, key: T -> int)
    ensures k !in KeySet(s, key) <==> forall x :: x in s ==> key(x) != k
  {
    if k in KeySet(s, key) {
      var i :| 0 <= i < |s| && Keys(s, key)[i] == k;
      assert s[i] in s && key(s[i]) == k;
    } else {
      forall x | x in s
        ensures key(x) != k
      {
        var i :| 0 <= i < |s| && s[i] == x;
        assert Keys(s, key)[i] == key(x);
      }
    }
  }

  /** Taking out an element takes out its key, and no other. */
  lemma RemovedKeys<T>(s: seq<T>, x: T, r: seq<T>, key: T -> int)
    requires Inserted(s, x, r) && Ascending(r, key)
    ensures KeySet(s, key) == KeySet(r, key) - {key(x)}
  {
    InsertedKeys(s, x, r, key);
    KeysAscending(r, key);
    RemovedElements(Keys(s, key), key(x), Keys(r, key));
  }

  lemma {:induction false} DistinctSize<T>(s: seq<T>)
    requires Distinct(s)
    ensures |set x | x in s| == |s|
  {
    if s == [] {
    } else {
      var a, x := s[..|s| - 1], s[|s| - 1];
      assert s == a + [x];
      DistinctSize(a);
      assert (set y | y in s) == (set y | y in a) + {x};
    }
  }

  /** No key stands twice. */
  lemma KeySetSize<T>(s: seq<T>, key: T -> int)
    requires Ascending(s, key)
    ensures |KeySet(s, key)| == |s|
  {
    KeysAscending(s, key);
    DistinctSize(Keys(s, key));
  }

  // ---------- order of iteration ----------

  /** `x` stands at place `i` of `s` with `y` just after it; `end` stands for the end. */
  ghost predicate NextAt<T>(s: seq<T>, i: int, x: T, y: T, end: T) {
    0 <= i < |s| && s[i] == x && y == if i + 1 == |s| then end else s[i + 1]
  }

  ghost predicate PrevAt<T>(s: seq<T>, i: int, x: T, y: T, end: T) {
    0 <= i < |s| && s[i] == x && y == if i == 0 then end else s[i - 1]
  }

  /** `y` comes just after `x` in `s`. */
  ghost predicate Successor<T>(s: seq<T>, x: T, y: T, end: T) {
    exists i :: NextAt(s, i, x, y, end)
  }

  /** `y` comes just before `x` in `s`. */
  ghost predicate Predecessor<T>(s: seq<T>, x: T, y: T, end: T) {
    exists i :: PrevAt(s, i, x, y, end)
  }

  /** An element stands at one place only, so what follows and precedes it is determined. */
  lemma Neighbours<T>(s: seq<T>, k: nat, y: T, end: T)
    requires Distinct(s) && k < |s|
    ensures Successor(s, s[k], y, end) <==> y == if k + 1 == |s| then end else s[k + 1]
    ensures Predecessor(s, s[k], y, end) <==> y == if k == 0 then end else s[k - 1]
  {
    assert forall i :: NextAt(s, i, s[k], y, end) ==> i == k;
    assert forall i :: PrevAt(s, i, s[k], y, end) ==> i == k;
    assert NextAt(s, k, s[k], y, end) <==> y == if k + 1 == |s| then end else s[k + 1];
    assert PrevAt(s, k, s[k], y, end) <==> y == if k == 0 then end else s[k - 1];
  }

  /** Stepping forward and stepping back undo each other. */
  lemma NextUndoesPrev<T>(s: seq<T>, x: T, y: T, end: T)
    requires x != end && y != end
    ensures Successor(s, x, y, end) <==> Predecessor(s, y, x, end)
  {
    if Successor(s, x, y, end) {
      var i :| NextAt(s, i, x, y, end);
      assert PrevAt(s, i + 1, y, x, end);
    }
    if Predecessor(s, y, x, end) {
      var i :| PrevAt(s, i, y, x, end);
      assert NextAt(s, i - 1, x, y, end);
    }
  }

  lemma NeighboursUnique<T>(s: seq<T>, x: T, a: T, b: T, end: T)
    requires Distinct(s)
    ensures Successor(s, x, a, end) && Successor(s, x, b, end) ==> a == b
    ensures Predecessor(s, x, a, end) && Predecessor(s, x, b, end) ==> a == b
  {
    assert forall i, j :: NextAt(s, i, x, a, end) && NextAt(s, j, x, b, end) ==> i == j;
    assert forall i, j :: PrevAt(s, i, x, a, end) && PrevAt(s, j, x, b, end) ==> i == j;
  }

  lemma SuccessorIntro<T>(a: seq<T>, x: T, b: seq<T>, end: T)
    ensures Successor(a + [x] + b, x, if b == [] then end else b[0], end)
  {
    assert NextAt(a + [x] + b, |a|, x, if b == [] then end else b[0], end);
  }

  lemma PredecessorIntro<T>(a: seq<T>, x: T, b: seq<T>, end: T)
    ensures Predecessor(a + [x] + b, x, if a == [] then end else a[|a| - 1], end)
  {
    assert PrevAt(a + [x] + b, |a|, x, if a == [] then end else a[|a| - 1], end);
  }
}
