/**
  The counter that numbers the heartbeats.
 */
module NumGenerators {

  /** The numbers handed out are 0, 1, .., max - 1, 0, 1, ..; `max` is the largest value of
      the number type, so the value `max` itself is never handed out. */
  ghost predicate Cyclic(issued: seq<int>, max: int)
    requires max > 0
  {
    forall i :: 0 <= i < |issued| ==> issued[i] == i % max
  }

  lemma ModStep(n: nat, max: int)
    requires max > 0
    ensures (n + 1) % max == (n % max + 1) % max
  {
    var q, r := n / max, n % max;
    if r + 1 < max {
      ModOf(n + 1, max, q, r + 1);
      ModOf(r + 1, max, 0, r + 1);
    } else {
      ModOf(n + 1, max, q + 1, 0);
      ModOf(r + 1, max, 1, 0);
    }
  }

  lemma MulPositive(d: int, m: int)
    requires d >= 1 && m > 0
    ensures d * m >= m
  {
  }

  lemma ModOf(n: int, max: int, q: int, r: int)
    requires 0 <= r < max && n == q * max + r
    ensures n % max == r
  {
    var p, m := n / max, n % max;
    assert n == p * max + m;
    assert (p - q) * max == p * max - q * max == r - m;
    assert (q - p) * max == q * max - p * max == m - r;
    if p > q {
      MulPositive(p - q, max);
    } else if p < q {
      MulPositive(q - p, max);
    }
  }

  /** Any `max` numbers in a row are pairwise different. */
  lemma WindowDistinct(issued: seq<int>, max: int, i: nat, j: nat)
    requires max > 0 && Cyclic(issued, max) && i < j < |issued| && j - i < max
    ensures issued[i] != issued[j] && 0 <= issued[i] < max
  {
    var d := j - i;
    var q, r := i / max, i % max;
    if r + d < max {
      ModOf(j, max, q, r + d);
    } else {
      ModOf(j, max, q + 1, r + d - max);
    }
  }

  class NumGenerator {
    const max: int
    var num: int
    ghost var issued: seq<int>

    ghost predicate Valid()
      reads this
    {
      max > 0 && 0 <= num < max && num == |issued| % max && Cyclic(issued, max)
    }

    constructor (max: int)
      requires max > 0
      ensures Valid() && issued == [] && this.max == max
    {
      this.max := max;
      num, issued := 0, [];
    }

    method GetNum() returns (ret: int)
      requires Valid()
      modifies this
      ensures Valid() && issued == old(issued) + [ret]
      ensures ret == |old(issued)| % max && ret < max
    {
      ret := num;
      assert num + 1 <= max;  // the increment stays within the number type
      ModStep(|issued|, max);
      num := (num + 1) % max;
      issued := issued + [ret];
    }
  }
}
