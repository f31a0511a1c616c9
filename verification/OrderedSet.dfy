/**
  One specification for both trees: a set of keys, and the answers the operations give.
 */
module OrderedSet {

  datatype Op = Insert(key: int) | Remove(key: int) | Find(key: int)

  /** The set after one operation. */
  function Next(s: set<int>, op: Op): set<int> {
    match op
    case Insert(k) => s + {k}
    case Remove(k) => s - {k}
    case Find(_) => s
  }

  /** Whether the key was new (insertion), or present (removal and lookup). */
  function Answer(s: set<int>, op: Op): bool {
    match op
    case Insert(k) => k !in s
    case Remove(k) => k in s
    case Find(k) => k in s
  }

  function Final(s: set<int>, ops: seq<Op>): set<int>
    decreases ops
  {
    if ops == [] then s else Final(Next(s, ops[0]), ops[1..])
  }

  function Answers(s: set<int>, ops: seq<Op>): seq<bool>
    decreases ops
  {
    if ops == [] then [] else [Answer(s, ops[0])] + Answers(Next(s, ops[0]), ops[1..])
  }

  lemma {:induction false} RunStep(s: set<int>, ops: seq<Op>, i: nat)
    requires i < |ops|
    ensures Final(s, ops[..i + 1]) == Next(Final(s, ops[..i]), ops[i])
    ensures Answers(s, ops[..i + 1]) == Answers(s, ops[..i]) + [Answer(Final(s, ops[..i]), ops[i])]
    decreases ops
  {
    if i == 0 {
      assert ops[..1] == [ops[0]];
    } else {
      RunStep(Next(s, ops[0]), ops[1..], i - 1);
      assert ops[1..][..i] == ops[..i + 1][1..];
      assert ops[1..][..i - 1] == ops[..i][1..];
    }
  }

  // ---------- what the answers mean, told from the operations alone ----------

  /** Operation `j` put the key `k` in, and none up to `i` took it out again. */
  ghost predicate PutIn(ops: seq<Op>, j: int, i: nat, k: int)
    requires i <= |ops|
  {
    0 <= j < i && ops[j] == Insert(k) && forall m | j < m < i :: ops[m] != Remove(k)
  }

  /** Before operation `i` the key `k` is there: the last insertion or removal of it was an
      insertion, or there was none and it was there at the start. */
  ghost predicate Present(s: set<int>, ops: seq<Op>, i: nat, k: int)
    requires i <= |ops|
  {
    || (exists j :: PutIn(ops, j, i, k))
    || (k in s && forall m | 0 <= m < i :: ops[m] != Remove(k))
  }

  /** An insertion says that its key was not there, a removal or lookup that it was. */
  ghost predicate Truthful(s: set<int>, ops: seq<Op>, answers: seq<bool>) {
    |answers| == |ops| &&
    forall i | 0 <= i < |ops| ::
      answers[i] <==> if ops[i].Insert? then !Present(s, ops, i, ops[i].key) else Present(s, ops, i, ops[i].key)
  }

  lemma PresentStep(s: set<int>, ops: seq<Op>, i: nat, k: int)
    requires i < |ops|
    ensures !Present(s, ops, 0, k) <==> k !in s
    ensures
      Present(s, ops, i + 1, k) <==> ops[i] == Insert(k) || (ops[i] != Remove(k) && Present(s, ops, i, k))
  {
    if ops[i] == Insert(k) {
      assert PutIn(ops, i, i + 1, k);
    } else if ops[i] != Remove(k) && exists j :: PutIn(ops, j, i, k) {
      var j :| PutIn(ops, j, i, k);
      assert PutIn(ops, j, i + 1, k);
    }
    var n := i + 1;
    if exists j :: PutIn(ops, j, n, k) {
      var j :| PutIn(ops, j, n, k);
      assert j < i ==> PutIn(ops, j, i, k) && ops[i] != Remove(k);
    }
  }

  /** The set after the first `i` operations holds exactly the keys that are there. */
  lemma {:induction false} FinalPresent(s: set<int>, ops: seq<Op>, i: nat, k: int)
    requires i <= |ops|
    ensures k in Final(s, ops[..i]) <==> Present(s, ops, i, k)
  {
    if i == 0 {
      assert ops[..0] == [];
    } else {
      FinalPresent(s, ops, i - 1, k);
      PresentStep(s, ops, i - 1, k);
      RunStep(s, ops, i - 1);
    }
  }

  lemma AnswersTruthful(s: set<int>, ops: seq<Op>)
    ensures Truthful(s, ops, Answers(s, ops))
    ensures forall k :: k in Final(s, ops) <==> Present(s, ops, |ops|, k)
  {
    AnswersUpTo(s, ops, |ops|);
    assert ops[..|ops|] == ops;
    forall k
      ensures k in Final(s, ops) <==> Present(s, ops, |ops|, k)
    {
      FinalPresent(s, ops, |ops|, k);
    }
    forall i | 0 <= i < |ops|
      ensures ops[i].key in Final(s, ops[..i]) <==> Present(s, ops, i, ops[i].key)
    {
      FinalPresent(s, ops, i, ops[i].key);
    }
  }

  lemma {:induction false} AnswersUpTo(s: set<int>, ops: seq<Op>, n: nat)
    requires n <= |ops|
    ensures |Answers(s, ops[..n])| == n
    ensures forall i | 0 <= i < n :: Answers(s, ops[..n])[i] == Answer(Final(s, ops[..i]), ops[i])
  {
    if n == 0 {
    } else {
      AnswersUpTo(s, ops, n - 1);
      RunStep(s, ops, n - 1);
    }
  }

  ghost predicate Sorted(s: seq<int>) {
    forall i, j :: 0 <= i < j < |s| ==> s[i] < s[j]
  }

  lemma FirstIn(s: seq<int>)
    ensures s == [] || s[0] in s
  {
  }

  /** A set of keys has one strictly ascending enumeration. */
  lemma {:induction false} SortedUnique(a: seq<int>, b: seq<int>)
    requires Sorted(a) && Sorted(b)
    requires forall k :: k in a <==> k in b
    ensures a == b
  {
    FirstIn(a);
    FirstIn(b);
    if a == [] {
    } else {
      assert a[0] in b && b[0] in a;
      assert a[0] == b[0];
      forall k
        ensures k in a[1..] <==> k in b[1..]
      {
        assert k in a[1..] <==> k in a && k != a[0];
        assert k in b[1..] <==> k in b && k != b[0];
      }
      SortedUnique(a[1..], b[1..]);
    }
  }
}
