// The nodes of a skip list in key order, and what each level's chain makes of
// them (kvs_skiptable.c).
module SkipShape {
  import opened KvData

  const MAX_LEVEL: nat := 12

  class SkipNode {
    const key: Bytes
    const level: nat
    var value: Bytes
    var expire: int
    var forward: seq<SkipNode?>

    constructor (level: nat, key: Bytes, value: Bytes, expire: int)
      ensures this.level == level && this.key == key && this.value == value && this.expire == expire
      ensures forward == seq(level + 1, i => null)
    {
      this.level, this.key, this.value, this.expire := level, key, value, expire;
      forward := seq(level + 1, i => null);
    }
  }

  // The header, then the nodes by key.
  type Chain = seq<SkipNode>

  // The first position from a on whose node reaches level i, or the end.
  function NextPos(c: Chain, a: nat, i: nat): (r: nat)
    requires a <= |c|
    ensures a <= r <= |c| && (r < |c| ==> c[r].level >= i)
    ensures forall j :: a <= j < r ==> c[j].level < i
    decreases |c| - a
  {
    if a == |c| || c[a].level >= i then a else NextPos(c, a + 1, i)
  }

  function NextAt(c: Chain, a: nat, i: nat): SkipNode?
    requires a <= |c|
  {
    var r := NextPos(c, a, i);
    if r < |c| then c[r] else null
  }

  lemma {:induction false} NextIs(c: Chain, a: nat, i: nat, r: nat)
    requires a <= r <= |c| && (r < |c| ==> c[r].level >= i)
    requires forall j :: a <= j < r ==> c[j].level < i
    ensures NextPos(c, a, i) == r
  {}

  ghost predicate Distinct(c: Chain) {
    forall a, b :: 0 <= a < b < |c| ==> c[a] != c[b]
  }

  ghost predicate Sorted(c: Chain) {
    forall a, b :: 1 <= a < b < |c| ==> Compare(c[a].key, c[b].key) < 0
  }

  // Position a is the last before p that reaches level i.
  ghost predicate IsUpdate(c: Chain, p: nat, i: nat, a: nat) {
    a < p <= |c| && c[a].level >= i && NextPos(c, a + 1, i) >= p
  }

  lemma {:induction false} OneUpdate(c: Chain, p: nat, i: nat, a: nat, b: nat)
    requires IsUpdate(c, p, i, a) && IsUpdate(c, p, i, b)
    ensures a == b
  {}

  function With(c: Chain, p: nat, x: SkipNode): Chain
    requires p <= |c|
  {
    c[..p] + [x] + c[p..]
  }

  function Sans(c: Chain, p: nat): Chain
    requires p < |c|
  {
    c[..p] + c[p + 1..]
  }

  lemma {:induction false} NextWithBefore(c: Chain, p: nat, x: SkipNode, a: nat, i: nat)
    requires a < p <= |c| && c[a].level >= i
    ensures NextAt(With(c, p, x), a + 1, i) ==
      if IsUpdate(c, p, i, a) && x.level >= i then x else NextAt(c, a + 1, i)
  {
    var r := NextPos(c, a + 1, i);
    var d := With(c, p, x);
    if r < p { NextIs(d, a + 1, i, r); }
    else if x.level >= i { NextIs(d, a + 1, i, p); }
    else { NextIs(d, a + 1, i, r + 1); }
  }

  lemma {:induction false} NextWithAfter(c: Chain, p: nat, x: SkipNode, a: nat, i: nat)
    requires p <= a <= |c|
    ensures NextAt(With(c, p, x), a + 1, i) == NextAt(c, a, i)
  {
    NextIs(With(c, p, x), a + 1, i, NextPos(c, a, i) + 1);
  }

  lemma {:induction false} NextSansBefore(c: Chain, p: nat, a: nat, i: nat)
    requires a < p < |c| && c[a].level >= i
    ensures NextAt(Sans(c, p), a + 1, i) ==
      if IsUpdate(c, p, i, a) then NextAt(c, p + 1, i) else NextAt(c, a + 1, i)
  {
    var r := NextPos(c, a + 1, i);
    if r < p { NextIs(Sans(c, p), a + 1, i, r); }
    else { NextIs(Sans(c, p), a + 1, i, NextPos(c, p + 1, i) - 1); }
  }

  lemma {:induction false} NextSansAfter(c: Chain, p: nat, a: nat, i: nat)
    requires p < a <= |c|
    ensures NextAt(Sans(c, p), a - 1, i) == NextAt(c, a, i)
  {
    NextIs(Sans(c, p), a - 1, i, NextPos(c, a, i) - 1);
  }

  // Where the node at p is linked from at level i, if it is.
  lemma {:induction false} UpdatePointsAt(c: Chain, p: nat, i: nat, a: nat)
    requires p < |c| && IsUpdate(c, p, i, a) && Distinct(c)
    ensures NextAt(c, a + 1, i) == c[p] <==> c[p].level >= i
    ensures c[p].level < i ==> NextAt(c, a + 1, i) == NextAt(c, p + 1, i)
  {
    var r := NextPos(c, a + 1, i);
    if c[p].level < i { NextIs(c, p + 1, i, r); }
  }

  // ------------------------------------------------------------- the search

  // p is where the key is or would be.
  ghost predicate Splits(c: Chain, key: Bytes, p: nat) {
    && 1 <= p <= |c|
    && (forall a :: 1 <= a < p ==> Compare(c[a].key, key) < 0)
    && (forall a :: p <= a < |c| ==> Compare(c[a].key, key) >= 0)
    && (forall a :: p < a < |c| ==> Compare(c[a].key, key) > 0)
  }

  lemma {:induction false} SplitsHere(c: Chain, key: Bytes, a: nat)
    requires Sorted(c) && a < |c| && (a > 0 ==> Compare(c[a].key, key) < 0)
    requires a + 1 < |c| ==> Compare(c[a + 1].key, key) >= 0
    ensures Splits(c, key, a + 1)
  {
    forall b | 1 <= b < a ensures Compare(c[b].key, key) < 0 {
      CompareTransitive(c[b].key, c[a].key, key);
    }
    forall b | a + 1 < b < |c| ensures Compare(c[b].key, key) > 0 {
      CompareSymmetric(c[a + 1].key, key);
      CompareSymmetric(c[b].key, key);
      if Compare(c[a + 1].key, key) > 0 { CompareTransitive(key, c[a + 1].key, c[b].key); }
    }
  }

  lemma {:induction false} Found(c: Chain, key: Bytes, p: nat, a: nat)
    requires Splits(c, key, p) && 1 <= a < |c|
    ensures c[a].key == key <==> a == p && Compare(c[p].key, key) == 0
  {
    CompareSymmetric(c[a].key, key);
    if p < |c| { CompareSymmetric(c[p].key, key); }
  }

  lemma {:induction false} SortedWith(c: Chain, p: nat, x: SkipNode)
    requires Sorted(c) && Splits(c, x.key, p) && (p < |c| ==> Compare(c[p].key, x.key) != 0)
    ensures Sorted(With(c, p, x))
  {
    var d := With(c, p, x);
    forall a, b | 1 <= a < b < |d| ensures Compare(d[a].key, d[b].key) < 0 {
      if b < p { assert d[a] == c[a] && d[b] == c[b]; }
      else if b == p { assert d[a] == c[a]; }
      else if a == p {
        assert d[b] == c[b - 1];
        CompareSymmetric(x.key, c[b - 1].key);
      } else {
        assert d[b] == c[b - 1];
        assert d[a] == if a < p then c[a] else c[a - 1];
      }
    }
  }

  lemma {:induction false} SortedSans(c: Chain, p: nat)
    requires Sorted(c) && 1 <= p < |c|
    ensures Sorted(Sans(c, p))
  {
    var d := Sans(c, p);
    forall a, b | 1 <= a < b < |d| ensures Compare(d[a].key, d[b].key) < 0 {
      assert d[a] == c[if a < p then a else a + 1];
      assert d[b] == c[if b < p then b else b + 1];
    }
  }

  lemma {:induction false} DistinctWith(c: Chain, p: nat, x: SkipNode)
    requires Distinct(c) && x !in c && p <= |c|
    ensures Distinct(With(c, p, x))
  {
    var d := With(c, p, x);
    forall a, b | 0 <= a < b < |d| ensures d[a] != d[b] {
      assert d[a] == if a < p then c[a] else if a == p then x else c[a - 1];
      assert d[b] == if b < p then c[b] else if b == p then x else c[b - 1];
    }
  }

  lemma {:induction false} DistinctSans(c: Chain, p: nat)
    requires Distinct(c) && p < |c|
    ensures Distinct(Sans(c, p)) && c[p] !in Sans(c, p)
  {
    var d := Sans(c, p);
    forall a | 0 <= a < |d| ensures d[a] == c[if a < p then a else a + 1] {}
  }
}
