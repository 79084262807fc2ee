// The buckets of the hash table and the chains that hang off them (kvs_hash.c).
module HashChains {
  import opened KvData

  class HashNode {
    const key: Bytes
    // The cached hash of the key.
    const hash: nat
    var value: Bytes
    var expire: int
    var next: HashNode?

    constructor (key: Bytes, hash: nat, value: Bytes, expire: int)
      ensures this.key == key && this.hash == hash && this.value == value && this.expire == expire && next == null
    {
      this.key, this.hash, this.value, this.expire, this.next := key, hash, value, expire, null;
    }
  }

  type List = seq<HashNode>

  function At(s: List, i: nat): HashNode? {
    if i < |s| then s[i] else null
  }

  ghost predicate Distinct(s: List) {
    forall a, b :: 0 <= a < b < |s| ==> s[a] != s[b]
  }

  // s is the chain that starts at head.
  ghost predicate Chain(head: HashNode?, s: List)
    reads s`next
  {
    head == At(s, 0) && Distinct(s) && forall a :: 0 <= a < |s| ==> s[a].next == At(s, a + 1)
  }

  // hash & (slots - 1), for a power of two.
  function Bucket(n: HashNode, slots: nat): nat
    requires slots > 0
  {
    n.hash % slots
  }

  // Each node of S is in the list of its own bucket, and nothing else is there.
  ghost predicate Sorted(lists: seq<List>, S: set<HashNode>) {
    && |lists| > 0
    && (forall n <- S :: n in lists[Bucket(n, |lists|)])
    && (forall i :: 0 <= i < |lists| ==> forall n <- lists[i] :: n in S && Bucket(n, |lists|) == i)
  }

  ghost predicate Chains(b: seq<HashNode?>, lists: seq<List>, S: set<HashNode>)
    requires Sorted(lists, S)
    reads S`next
  {
    |b| == |lists| && forall i :: 0 <= i < |lists| ==> Linked(b, lists, S, i)
  }

  ghost predicate Linked(b: seq<HashNode?>, lists: seq<List>, S: set<HashNode>, i: nat)
    requires Sorted(lists, S) && i < |b| && i < |lists|
    reads S`next
  {
    assert forall n <- lists[i] :: n in S;
    Chain(b[i], lists[i])
  }

  ghost predicate Table(b: seq<HashNode?>, lists: seq<List>, S: set<HashNode>)
    reads S`next
  {
    Sorted(lists, S) && Chains(b, lists, S)
  }

  lemma {:induction false} EmptyTable(b: seq<HashNode?>, lists: seq<List>)
    requires |b| == |lists| > 0 && forall i :: 0 <= i < |b| ==> b[i] == null && lists[i] == []
    ensures Table(b, lists, {})
  {}

  // ------------------------------------------------------ one node in or out

  // x, whose next is already set, goes first in its bucket.
  lemma {:induction false} PushedSorted(lists: seq<List>, S: set<HashNode>, x: HashNode)
    requires Sorted(lists, S) && x !in S
    ensures var h := Bucket(x, |lists|); Sorted(lists[h := [x] + lists[h]], S + {x})
  {
    var h := Bucket(x, |lists|);
    var r := lists[h := [x] + lists[h]];
    assert |r| == |lists|;
    forall n | n in S + {x} ensures n in r[Bucket(n, |r|)] {
      if n != x { assert n in lists[Bucket(n, |lists|)]; }
    }
  }

  lemma {:induction false} ChainCons(head: HashNode?, s: List, x: HashNode)
    requires Chain(head, s) && x.next == head && x !in s
    ensures Chain(x, [x] + s)
  {
    var t := [x] + s;
    forall a | 0 <= a < |t| ensures t[a].next == At(t, a + 1) {
      if a > 0 { assert t[a] == s[a - 1]; }
    }
  }

  lemma {:induction false} PushedTable(b: seq<HashNode?>, lists: seq<List>, S: set<HashNode>, x: HashNode)
    requires Table(b, lists, S) && x !in S
    requires x.next == b[Bucket(x, |lists|)]
    ensures var h := Bucket(x, |lists|); Table(b[h := x], lists[h := [x] + lists[h]], S + {x})
  {
    var h := Bucket(x, |lists|);
    PushedSorted(lists, S, x);
    assert Linked(b, lists, S, h);
    ChainCons(b[h], lists[h], x);
    var c, r := b[h := x], lists[h := [x] + lists[h]];
    forall i | 0 <= i < |r| ensures Linked(c, r, S + {x}, i) {
      if i != h { assert Linked(b, lists, S, i); }
    }
  }

  function Removed(s: List, a: nat): List
    requires a < |s|
  {
    s[..a] + s[a + 1..]
  }

  lemma {:induction false} RemovedAt(s: List, a: nat, j: nat)
    requires a < |s|
    ensures |Removed(s, a)| == |s| - 1
    ensures At(Removed(s, a), j) == At(s, if j < a then j else j + 1)
  {}

  lemma {:induction false} RemovedHas(s: List, a: nat, n: HashNode)
    requires a < |s| && Distinct(s)
    ensures n in Removed(s, a) <==> n in s && n != s[a]
  {
    assert s == s[..a] + [s[a]] + s[a + 1..];
  }

  lemma {:induction false} RemovedSorted(lists: seq<List>, S: set<HashNode>, h: nat, a: nat)
    requires Sorted(lists, S) && h < |lists| && a < |lists[h]| && Distinct(lists[h])
    ensures Sorted(lists[h := Removed(lists[h], a)], S - {lists[h][a]})
  {
    var x, r := lists[h][a], lists[h := Removed(lists[h], a)];
    assert |r| == |lists|;
    forall n ensures n in Removed(lists[h], a) <==> n in lists[h] && n != x { RemovedHas(lists[h], a, n); }
    forall i, n | 0 <= i < |r| && n in r[i] ensures n in S - {x} && Bucket(n, |r|) == i {
      assert n in lists[i];
      assert x in lists[h];
    }
  }

  // What is left once the link to position a goes past it.
  lemma {:induction false} RemovedChain(head: HashNode?, s: List, a: nat)
    requires a < |s| && Distinct(s) && head == At(Removed(s, a), 0)
    requires forall j :: 0 <= j < |s| && j != a && j + 1 != a ==> s[j].next == At(s, j + 1)
    requires a > 0 ==> s[a - 1].next == At(s, a + 1)
    ensures Chain(head, Removed(s, a))
  {
    var t := Removed(s, a);
    forall j | 0 <= j < |t| ensures t[j].next == At(t, j + 1) {
      RemovedAt(s, a, j);
      RemovedAt(s, a, j + 1);
      assert t[j] == s[if j < a then j else j + 1];
    }
  }
}
