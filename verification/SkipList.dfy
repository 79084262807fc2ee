// The skip list engine of kvs_skiptable.c. The random level of a new node is a
// parameter: everything holds for every choice.
module SkipList {
  import opened KvData
  import opened SkipShape
  import T = Table

  ghost predicate Sized(c: Chain)
    reads c`forward
  {
    forall a :: 0 <= a < |c| ==> |c[a].forward| == c[a].level + 1
  }

  ghost predicate Linked(c: Chain)
    reads c`forward
  {
    Sized(c) &&
    forall a, i :: 0 <= a < |c| && 0 <= i <= c[a].level ==> c[a].forward[i] == NextAt(c, a + 1, i)
  }

  // The node x is linked in at position p, on the levels below n.
  ghost predicate PartlyWith(c: Chain, p: nat, x: SkipNode, n: nat)
    requires p <= |c|
    reads c`forward, x`forward
  {
    && Sized(c) && |x.forward| == x.level + 1
    && (forall i :: 0 <= i < n && i <= x.level ==> x.forward[i] == NextAt(c, p, i))
    && (forall a, i :: 0 <= a < |c| && 0 <= i <= c[a].level ==>
          c[a].forward[i] == if i < n && IsUpdate(c, p, i, a) then x else NextAt(c, a + 1, i))
  }

  // The node at position p is bypassed on the levels below n.
  ghost predicate PartlySans(c: Chain, p: nat, n: nat)
    requires p < |c|
    reads c`forward
  {
    Sized(c) &&
    forall a, i :: 0 <= a < |c| && 0 <= i <= c[a].level ==>
      c[a].forward[i] == if i < n && IsUpdate(c, p, i, a) then NextAt(c, p + 1, i) else NextAt(c, a + 1, i)
  }

  lemma {:induction false} LinkedWith(c: Chain, p: nat, x: SkipNode)
    requires p <= |c| && PartlyWith(c, p, x, x.level + 1)
    ensures Linked(With(c, p, x))
  {
    var d := With(c, p, x);
    forall a | 0 <= a < |d| ensures |d[a].forward| == d[a].level + 1 {
      assert d[a] == if a < p then c[a] else if a == p then x else c[a - 1];
    }
    forall a, i | 0 <= a < |d| && 0 <= i <= d[a].level
      ensures d[a].forward[i] == NextAt(d, a + 1, i)
    {
      if a < p {
        assert d[a] == c[a];
        NextWithBefore(c, p, x, a, i);
      } else if a == p {
        NextWithAfter(c, p, x, p, i);
      } else {
        assert d[a] == c[a - 1];
        NextWithAfter(c, p, x, a, i);
      }
    }
  }

  // n reaches beyond every level that the node at p is on.
  lemma {:induction false} LinkedSans(c: Chain, p: nat, n: nat)
    requires p < |c| && PartlySans(c, p, n) && c[p].level < n && Distinct(c)
    ensures Linked(Sans(c, p))
  {
    var d := Sans(c, p);
    forall a | 0 <= a < |d| ensures |d[a].forward| == d[a].level + 1 {
      assert d[a] == if a < p then c[a] else c[a + 1];
    }
    forall a, i | 0 <= a < |d| && 0 <= i <= d[a].level
      ensures d[a].forward[i] == NextAt(d, a + 1, i)
    {
      if a < p {
        assert d[a] == c[a];
        NextSansBefore(c, p, a, i);
        if i >= n && IsUpdate(c, p, i, a) { UpdatePointsAt(c, p, i, a); }
      } else {
        assert d[a] == c[a + 1];
        NextSansAfter(c, p, a + 2, i);
      }
    }
  }

  method LinkOne(ghost c: Chain, ghost p: nat, x: SkipNode, u: SkipNode, ghost a: nat, n: nat)
    requires p <= |c| && PartlyWith(c, p, x, n) && n <= x.level && x !in c && Distinct(c)
    requires IsUpdate(c, p, n, a) && c[a] == u
    modifies x`forward, u`forward
    ensures PartlyWith(c, p, x, n + 1)
  {
    assert u.forward[n] == NextAt(c, p, n) by {
      assert NextPos(c, a + 1, n) >= p;
      NextIs(c, p, n, NextPos(c, a + 1, n));
    }
    x.forward := x.forward[n := u.forward[n]];
    u.forward := u.forward[n := x];
    forall b, i | 0 <= b < |c| && 0 <= i <= c[b].level
      ensures c[b].forward[i] == if i < n + 1 && IsUpdate(c, p, i, b) then x else NextAt(c, b + 1, i)
    {
      if i == n && IsUpdate(c, p, n, b) { OneUpdate(c, p, n, a, b); }
    }
  }

  method UnlinkOne(ghost c: Chain, ghost p: nat, x: SkipNode, u: SkipNode, ghost a: nat, n: nat)
    requires p < |c| && PartlySans(c, p, n) && c[p] == x && Distinct(c)
    requires IsUpdate(c, p, n, a) && c[a] == u
    modifies u`forward
    ensures PartlySans(c, p, n + 1)
  {
    UpdatePointsAt(c, p, n, a);
    if u.forward[n] == x {
      u.forward := u.forward[n := x.forward[n]];
    }
    forall b, i | 0 <= b < |c| && 0 <= i <= c[b].level
      ensures c[b].forward[i] == if i < n + 1 && IsUpdate(c, p, i, b) then NextAt(c, p + 1, i) else NextAt(c, b + 1, i)
    {
      if i == n && IsUpdate(c, p, n, b) { OneUpdate(c, p, n, a, b); }
    }
  }

  // No chain is longer than the list says, and its top one is not empty.
  ghost predicate TopLevel(c: Chain, level: nat)
    requires c != []
  {
    && (forall a :: 1 <= a < |c| ==> c[a].level <= level)
    && (level > 0 ==> NextPos(c, 1, level) < |c|)
  }

  ghost predicate Represents(c: Chain, m: T.Table)
    reads c`value, c`expire
  {
    && (forall a :: 1 <= a < |c| ==> c[a].key in m && m[c[a].key] == T.Entry(c[a].value, c[a].expire))
    && (forall k <- m :: HasKey(c, k))
  }

  ghost predicate HasKey(c: Chain, k: Bytes) {
    exists a :: 1 <= a < |c| && c[a].key == k
  }

  // Where the search leaves level i: the next node there has no smaller key.
  ghost predicate Stopped(c: Chain, key: Bytes, i: nat, a: nat) {
    a < |c| && c[a].level >= i && (a > 0 ==> Compare(c[a].key, key) < 0) &&
    var r := NextPos(c, a + 1, i); r < |c| ==> Compare(c[r].key, key) >= 0
  }

  lemma {:induction false} StoppedIsUpdate(c: Chain, key: Bytes, p: nat, i: nat, a: nat)
    requires Stopped(c, key, i, a) && Splits(c, key, p)
    ensures IsUpdate(c, p, i, a)
  {}

  lemma {:induction false} StoppedSplits(c: Chain, key: Bytes, a: nat)
    requires Stopped(c, key, 0, a) && Sorted(c)
    ensures Splits(c, key, a + 1)
  {
    NextIs(c, a + 1, 0, a + 1);
    SplitsHere(c, key, a);
  }

  // What the search returns: per level, the last node before the key.
  ghost predicate Update(c: Chain, p: nat, top: nat, update: seq<SkipNode?>, idx: seq<nat>) {
    && |update| == |idx| == MAX_LEVEL + 1 && top <= MAX_LEVEL
    && forall i :: 0 <= i <= top ==> IsUpdate(c, p, i, idx[i]) && update[i] == c[idx[i]]
  }

  // The part of it that is done when the search has left the levels above i.
  ghost predicate Trail(c: Chain, key: Bytes, i: int, top: nat, update: seq<SkipNode?>, idx: seq<nat>) {
    && |update| == |idx| == MAX_LEVEL + 1 && -1 <= i <= top <= MAX_LEVEL
    && forall j :: i < j <= top ==> Stopped(c, key, j, idx[j]) && update[j] == c[idx[j]]
  }

  lemma {:induction false} TrailEnds(c: Chain, key: Bytes, top: nat, update: seq<SkipNode?>, idx: seq<nat>)
    returns (p: nat)
    requires Sorted(c) && Trail(c, key, -1, top, update, idx)
    ensures p == idx[0] + 1 && Update(c, p, top, update, idx) && Splits(c, key, p)
  {
    p := idx[0] + 1;
    StoppedSplits(c, key, idx[0]);
    forall j | 0 <= j <= top ensures IsUpdate(c, p, j, idx[j]) {
      StoppedIsUpdate(c, key, p, j, idx[j]);
    }
  }

  lemma {:induction false} Lookup(c: Chain, m: T.Table, key: Bytes, p: nat)
    requires Represents(c, m) && Splits(c, key, p)
    ensures key in m <==> p < |c| && Compare(c[p].key, key) == 0
    ensures key in m ==> c[p].key == key && m[key] == T.Entry(c[p].value, c[p].expire)
  {
    if key in m {
      var a :| 1 <= a < |c| && c[a].key == key;
      Found(c, key, p, a);
    }
    if p < |c| && Compare(c[p].key, key) == 0 { Found(c, key, p, p); }
  }

  lemma {:induction false} OneNode(c: Chain, a: nat, b: nat)
    requires Sorted(c) && 1 <= a < |c| && 1 <= b < |c| && c[a].key == c[b].key
    ensures a == b
  {
    CompareSymmetric(c[a].key, c[b].key);
  }

  lemma {:induction false} RepresentsSans(c: Chain, m: T.Table, p: nat)
    requires Represents(c, m) && Sorted(c) && 1 <= p < |c|
    ensures Represents(Sans(c, p), m - {c[p].key})
  {
    var d, m' := Sans(c, p), m - {c[p].key};
    forall a | 1 <= a < |d| ensures d[a].key in m' && m'[d[a].key] == T.Entry(d[a].value, d[a].expire) {
      var b := if a < p then a else a + 1;
      assert d[a] == c[b] && 1 <= b < |c| && b != p;
      if c[b].key == c[p].key { OneNode(c, b, p); }
    }
    forall k | k in m' ensures HasKey(d, k) {
      StillHas(c, p, k);
    }
  }

  lemma {:induction false} StillHas(c: Chain, p: nat, k: Bytes)
    requires HasKey(c, k) && 1 <= p < |c| && c[p].key != k
    ensures HasKey(Sans(c, p), k)
  {
    var a :| 1 <= a < |c| && c[a].key == k;
    assert Sans(c, p)[if a < p then a else a - 1] == c[a];
  }

  lemma {:induction false} RepresentsWith(c: Chain, m: T.Table, p: nat, x: SkipNode)
    requires Represents(c, m) && 1 <= p <= |c| && Sorted(With(c, p, x))
    ensures Represents(With(c, p, x), m[x.key := T.Entry(x.value, x.expire)])
  {
    var d, m' := With(c, p, x), m[x.key := T.Entry(x.value, x.expire)];
    assert d[p] == x;
    forall a | 1 <= a < |d| ensures d[a].key in m' && m'[d[a].key] == T.Entry(d[a].value, d[a].expire) {
      if a != p {
        assert d[a] == c[if a < p then a else a - 1];
        if d[a].key == x.key { OneNode(d, a, p); }
      }
    }
    forall k | k in m' ensures HasKey(d, k) {
      if k == x.key {
        assert d[p].key == k;
      } else {
        var a :| 1 <= a < |c| && c[a].key == k;
        assert d[if a < p then a else a + 1] == c[a];
      }
    }
  }

  lemma {:induction false} WithElems(c: Chain, p: nat, x: SkipNode)
    requires 1 <= p <= |c|
    ensures |With(c, p, x)| == |c| + 1 && With(c, p, x)[0] == c[0]
    ensures forall n :: n in With(c, p, x) <==> n in c || n == x
  {
    assert c == c[..p] + c[p..];
  }

  lemma {:induction false} SansElems(c: Chain, p: nat)
    requires 1 <= p < |c| && Distinct(c)
    ensures |Sans(c, p)| == |c| - 1 && Sans(c, p)[0] == c[0]
    ensures forall n :: n in Sans(c, p) <==> n in c && n != c[p]
  {
    assert c == c[..p] + [c[p]] + c[p + 1..];
  }

  lemma {:induction false} TopLevelWith(c: Chain, p: nat, x: SkipNode, level: nat, before: nat)
    requires 1 <= p <= |c| && TopLevel(c, before) && level == if x.level > before then x.level else before
    ensures TopLevel(With(c, p, x), level)
  {
    var d := With(c, p, x);
    assert forall a :: 1 <= a < |d| ==> d[a] == if a < p then c[a] else if a == p then x else c[a - 1];
    if level > 0 {
      var r := if x.level >= level then |c| else NextPos(c, 1, level);
      assert d[if r == |c| then p else if r < p then r else r + 1].level >= level;
    }
  }

  lemma {:induction false} NextNode(c: Chain, a: nat)
    requires Linked(c) && a < |c|
    ensures |c[a].forward| == c[a].level + 1
    ensures c[a].forward[0] == if a + 1 < |c| then c[a + 1] else null
  {
    NextIs(c, a + 1, 0, a + 1);
  }

  // The entries that have not expired, in chain order.
  ghost function Unexpired(c: Chain, from: nat, ttl: bool, now: int): seq<T.Visit>
    requires from <= |c|
    reads c`value, c`expire
    decreases |c| - from
  {
    if from == |c| then []
    else if T.Expired(T.Entry(c[from].value, c[from].expire), ttl, now) then Unexpired(c, from + 1, ttl, now)
    else [(c[from].key, T.Entry(c[from].value, c[from].expire))] + Unexpired(c, from + 1, ttl, now)
  }

  lemma {:induction false} UnexpiredStep(c: Chain, from: nat, ttl: bool, now: int, s: seq<T.Visit>)
    requires from < |c|
    ensures var e := T.Entry(c[from].value, c[from].expire);
      s + Unexpired(c, from, ttl, now) ==
      (if T.Expired(e, ttl, now) then s else s + [(c[from].key, T.Entry(c[from].value, c[from].expire))]) + Unexpired(c, from + 1, ttl, now)
  {}

  lemma {:induction false} UnexpiredEnds(c: Chain, ttl: bool, now: int)
    ensures Unexpired(c, |c|, ttl, now) == []
  {}

  // Each of them once, and where it comes from.
  lemma {:induction false} UnexpiredFrom(c: Chain, from: nat, ttl: bool, now: int, i: nat) returns (a: nat)
    requires from <= |c| && i < |Unexpired(c, from, ttl, now)|
    ensures from <= a < |c| && Unexpired(c, from, ttl, now)[i] == (c[a].key, T.Entry(c[a].value, c[a].expire))
    ensures !T.Expired(T.Entry(c[a].value, c[a].expire), ttl, now)
    decreases |c| - from
  {
    var e := T.Entry(c[from].value, c[from].expire);
    if T.Expired(e, ttl, now) { a := UnexpiredFrom(c, from + 1, ttl, now, i); }
    else if i == 0 { a := from; }
    else { a := UnexpiredFrom(c, from + 1, ttl, now, i - 1); }
  }

  lemma {:induction false} UnexpiredHas(c: Chain, from: nat, ttl: bool, now: int, a: nat) returns (i: nat)
    requires from <= a < |c| && !T.Expired(T.Entry(c[a].value, c[a].expire), ttl, now)
    ensures i < |Unexpired(c, from, ttl, now)| && Unexpired(c, from, ttl, now)[i].0 == c[a].key
    decreases |c| - from
  {
    var e := T.Entry(c[from].value, c[from].expire);
    if from == a { i := 0; }
    else {
      i := UnexpiredHas(c, from + 1, ttl, now, a);
      if !T.Expired(e, ttl, now) { i := i + 1; }
    }
  }

  lemma {:induction false} UnexpiredSorted(c: Chain, from: nat, ttl: bool, now: int)
    requires 1 <= from <= |c| && Sorted(c)
    ensures var s := Unexpired(c, from, ttl, now);
      forall i, j :: 0 <= i < j < |s| ==> Compare(s[i].0, s[j].0) < 0
    decreases |c| - from
  {
    if from < |c| {
      UnexpiredSorted(c, from + 1, ttl, now);
      var s, rest := Unexpired(c, from, ttl, now), Unexpired(c, from + 1, ttl, now);
      forall i, j | 0 <= i < j < |s| ensures Compare(s[i].0, s[j].0) < 0 {
        if s != rest {
          var a := UnexpiredFrom(c, from + 1, ttl, now, j - 1);
          assert s[j] == rest[j - 1];
          if i > 0 { assert s[i] == rest[i - 1]; }
        }
      }
    }
  }

  lemma {:induction false} UnexpiredIsListing(c: Chain, m: T.Table, ttl: bool, now: int)
    requires c != [] && Sorted(c) && Represents(c, m)
    ensures T.Listing(m, ttl, now, Unexpired(c, 1, ttl, now))
  {
    var s := Unexpired(c, 1, ttl, now);
    UnexpiredSorted(c, 1, ttl, now);
    forall i | 0 <= i < |s| ensures s[i].0 in m && m[s[i].0] == s[i].1 && !T.Expired(s[i].1, ttl, now) {
      var a := UnexpiredFrom(c, 1, ttl, now, i);
    }
    forall k | k in m && !T.Expired(m[k], ttl, now) ensures exists i :: 0 <= i < |s| && s[i].0 == k {
      var a :| 1 <= a < |c| && c[a].key == k;
      var i := UnexpiredHas(c, 1, ttl, now, a);
    }
  }

  lemma {:induction false} UpdateValue(c: Chain, m: T.Table, m': T.Table, p: nat)
    requires Sorted(c) && 1 <= p < |c| && c[p].key in m
    requires m' == m[c[p].key := T.Entry(c[p].value, c[p].expire)]
    requires forall a :: 1 <= a < |c| && a != p ==> c[a].key in m && m[c[a].key] == T.Entry(c[a].value, c[a].expire)
    requires forall k <- m :: HasKey(c, k)
    ensures Represents(c, m')
  {
    forall a | 1 <= a < |c| ensures c[a].key in m' && m'[c[a].key] == T.Entry(c[a].value, c[a].expire) {
      if c[a].key == c[p].key { OneNode(c, a, p); }
    }
  }

  lemma {:induction false} LevelsSans(c: Chain, p: nat, level: nat)
    requires 1 <= p < |c| && TopLevel(c, level)
    ensures c[p].level <= level
    ensures forall a :: 1 <= a < |Sans(c, p)| ==> Sans(c, p)[a].level <= level
  {
    forall a | 1 <= a < |Sans(c, p)| ensures Sans(c, p)[a].level <= level {
      assert Sans(c, p)[a] == c[if a < p then a else a + 1];
    }
  }

  class SkipList {
    const header: SkipNode
    var level: nat
    var count: int
    ghost var chain: Chain
    ghost var table: T.Table

    ghost predicate Shaped()
      reads this`level, this`count, this`chain
    {
      && chain != [] && chain[0] == header && header.level == MAX_LEVEL
      && Distinct(chain) && Sorted(chain)
      && level <= MAX_LEVEL && TopLevel(chain, level) && count == |chain| - 1
    }

    ghost predicate Valid()
      reads this`level, this`count, this`chain, this`table, chain`forward, chain`value, chain`expire
    {
      Shaped() && Linked(chain) && Represents(chain, table)
    }

    constructor ()
      ensures Valid() && table == map[] && fresh(chain)
    {
      header := new SkipNode(MAX_LEVEL, [], [], 0);
      level, count := 0, 0;
      chain, table := [header], map[];
    }

    method FindUpdate(key: Bytes) returns (update: seq<SkipNode?>, found: SkipNode?, ghost idx: seq<nat>, ghost p: nat)
      requires Valid()
      ensures Update(chain, p, level, update, idx) && Splits(chain, key, p) && 1 <= p <= |chain|
      ensures found == if p < |chain| && Compare(chain[p].key, key) == 0 then chain[p] else null
      ensures found == null <==> key !in table
      ensures found != null ==> found.key == key && table[key] == T.Entry(found.value, found.expire)
    {
      hide Linked, Sorted, Distinct, TopLevel, Represents, Splits, Stopped, IsUpdate;
      update, idx := seq(MAX_LEVEL + 1, i => null), seq(MAX_LEVEL + 1, i => 0);
      var current := header;
      ghost var a: nat := 0;
      var i: int := level;
      while i >= 0
        invariant -1 <= i <= level && a < |chain| && current == chain[a]
        invariant i >= 0 ==> current.level >= i
        invariant Trail(chain, key, i, level, update, idx) && (i == -1 ==> idx[0] == a)
        invariant a > 0 ==> Compare(chain[a].key, key) < 0
      {
        current, a := Forward(key, i, current, a);
        update, idx := update[i := current], idx[i := a];
        i := i - 1;
      }
      p := TrailEnds(chain, key, level, update, idx);
      found := Candidate(current, key, a);
      Lookup(chain, table, key, p);
    }

    method Candidate(current: SkipNode, key: Bytes, ghost a: nat) returns (found: SkipNode?)
      requires Linked(chain) && a < |chain| && current == chain[a]
      ensures found == if a + 1 < |chain| && Compare(chain[a + 1].key, key) == 0 then chain[a + 1] else null
    {
      NextIs(chain, a + 1, 0, a + 1);
      found := current.forward[0];
      if found != null && Compare(found.key, key) != 0 { found := null; }
    }

    method Forward(key: Bytes, i: nat, start: SkipNode, ghost from: nat) returns (current: SkipNode, ghost a: nat)
      requires Shaped() && Linked(chain)
      requires from < |chain| && chain[from] == start && start.level >= i
      requires from > 0 ==> Compare(chain[from].key, key) < 0
      ensures Stopped(chain, key, i, a) && a < |chain| && current == chain[a] && current.level >= i
      ensures a > 0 ==> Compare(chain[a].key, key) < 0
    {
      current, a := start, from;
      while current.forward[i] != null && Compare(current.forward[i].key, key) < 0
        invariant a < |chain| && current == chain[a] && current.level >= i
        invariant a > 0 ==> Compare(chain[a].key, key) < 0
        decreases |chain| - a
      {
        current, a := current.forward[i], NextPos(chain, a + 1, i);
      }
    }

    // ------------------------------------------------------------- insertion

    // The levels that did not exist start at the header.
    method Raise(update0: seq<SkipNode?>, to: nat, ghost idx0: seq<nat>, ghost p: nat)
      returns (update: seq<SkipNode?>, ghost idx: seq<nat>)
      requires Shaped() && 1 <= p && Update(chain, p, level, update0, idx0) && to <= MAX_LEVEL && p <= |chain|
      modifies this`level
      ensures level == (if to > old(level) then to else old(level))
      ensures Update(chain, p, level, update, idx)
    {
      update, idx := update0, idx0;
      if to > level {
        var i := level + 1;
        while i <= to
          invariant level + 1 <= i <= to + 1 && Update(chain, p, i - 1, update, idx)
        {
          NextIs(chain, 1, i, |chain|);
          update, idx := update[i := header], idx[i := 0];
          i := i + 1;
        }
        level := to;
      }
    }

    method LinkIn(x: SkipNode, update: seq<SkipNode?>, ghost idx: seq<nat>, ghost p: nat)
      requires p <= |chain| && Distinct(chain) && x !in chain && Linked(chain)
      requires Update(chain, p, level, update, idx) && x.level <= level && |x.forward| == x.level + 1
      modifies x`forward, chain`forward
      ensures Linked(With(chain, p, x))
    {
      var i := 0;
      while i <= x.level
        invariant 0 <= i <= x.level + 1
        invariant PartlyWith(chain, p, x, i)
      {
        LinkOne(chain, p, x, update[i], idx[i], i);
        i := i + 1;
      }
      LinkedWith(chain, p, x);
    }

    method Insert(key: Bytes, value: Bytes, expire: int, newLevel: nat,
                  update0: seq<SkipNode?>, ghost idx0: seq<nat>, ghost p: nat)
      requires Valid() && newLevel <= MAX_LEVEL
      requires Update(chain, p, level, update0, idx0) && Splits(chain, key, p) && 1 <= p <= |chain|
      requires p < |chain| ==> Compare(chain[p].key, key) != 0
      modifies this`level, this`count, this`chain, this`table, chain`forward
      ensures Valid() && table == T.Set(old(table), key, value, expire)
      ensures forall n <- chain :: n in old(chain) || fresh(n)
    {
      hide Linked, Sorted, Distinct, TopLevel, Represents, Splits, IsUpdate, Update, With;
      assert chain[0] == header;
      ghost var c := chain;
      var update, idx := Raise(update0, newLevel, idx0, p);
      var x := new SkipNode(newLevel, key, value, expire);
      LinkIn(x, update, idx, p);
      SortedWith(c, p, x);
      DistinctWith(c, p, x);
      RepresentsWith(c, table, p, x);
      TopLevelWith(c, p, x, level, old(level));
      WithElems(c, p, x);
      chain := With(c, p, x);
      count := count + 1;
      table := table[key := T.Entry(value, expire)];
    }

    // --------------------------------------------------------------- removal

    method Bypass(x: SkipNode, update: seq<SkipNode?>, ghost idx: seq<nat>, ghost p: nat)
      requires p < |chain| && chain[p] == x && Distinct(chain) && Linked(chain)
      requires Update(chain, p, level, update, idx) && x.level <= level
      modifies chain`forward
      ensures Linked(Sans(chain, p))
    {
      var i := 0;
      while i <= level
        invariant 0 <= i <= level + 1
        invariant PartlySans(chain, p, i)
      {
        UnlinkOne(chain, p, x, update[i], idx[i], i);
        i := i + 1;
      }
      LinkedSans(chain, p, level + 1);
    }

    // The list gets as low as its highest chain that is not empty.
    method Lower()
      requires chain != [] && chain[0] == header && header.level == MAX_LEVEL && Linked(chain)
      requires level <= MAX_LEVEL && forall a :: 1 <= a < |chain| ==> chain[a].level <= level
      modifies this`level
      ensures level <= MAX_LEVEL && TopLevel(chain, level)
      ensures level > 0 ==> header.forward[level] != null
      ensures forall i :: level < i <= old(level) ==> header.forward[i] == null
    {
      while level > 0 && header.forward[level] == null
        invariant level <= old(level) && forall a :: 1 <= a < |chain| ==> chain[a].level <= level
        invariant forall i :: level < i <= old(level) ==> header.forward[i] == null
      {
        assert NextAt(chain, 1, level) == null;
        level := level - 1;
      }
      assert level > 0 ==> NextAt(chain, 1, level) != null;
    }

    method Remove(x: SkipNode, update: seq<SkipNode?>, ghost idx: seq<nat>, ghost p: nat)
      requires Valid() && Update(chain, p, level, update, idx) && 1 <= p < |chain| && chain[p] == x
      modifies this`level, this`count, this`chain, this`table, chain`forward
      ensures Valid() && table == old(table) - {x.key}
      ensures forall n <- chain :: n in old(chain)
    {
      hide Linked, Sorted, Distinct, TopLevel, Represents, Update, Sans;
      ghost var c := chain;
      LevelsSans(c, p, level);
      Bypass(x, update, idx, p);
      SortedSans(c, p);
      DistinctSans(c, p);
      RepresentsSans(c, table, p);
      SansElems(c, p);
      chain := Sans(c, p);
      table := table - {x.key};
      count := count - 1;
      Lower();
    }

    // ------------------------------------------------------------ operations

    method Overwrite(x: SkipNode, value: Bytes, expire: int, ghost p: nat)
      requires Valid() && 1 <= p < |chain| && chain[p] == x
      modifies x`value, x`expire, this`table
      ensures Valid() && table == T.Set(old(table), x.key, value, expire)
    {
      hide Linked, TopLevel;
      x.value, x.expire := value, expire;
      ghost var m := table;
      table := table[x.key := T.Entry(value, expire)];
      UpdateValue(chain, m, table, p);
    }

    // newLevel: the random level of a new node.
    method Set(key: Bytes, value: Bytes, expire: int, newLevel: nat)
      requires Valid() && newLevel <= MAX_LEVEL
      modifies this`level, this`count, this`chain, this`table, chain`forward, chain`value, chain`expire
      ensures Valid() && table == T.Set(old(table), key, value, expire)
      ensures forall n <- chain :: n in old(chain) || fresh(n)
    {
      hide Linked, Sorted, Distinct, TopLevel, Represents, Splits, Update;
      var update, current, idx, p := FindUpdate(key);
      if current != null {
        if |value| <= |current.value| {
          Overwrite(current, value, expire, p);
          return;
        }
        var r := Del(key);
        update, current, idx, p := FindUpdate(key);
        assert forall i :: 0 <= i < |chain| ==> chain[i] in old(chain);
      }
      Insert(key, value, expire, newLevel, update, idx, p);
    }

    method Get(key: Bytes, ttl: bool, now: int) returns (r: Option<Bytes>)
      requires Valid()
      modifies this`level, this`count, this`chain, this`table, chain`forward
      ensures Valid() && r == T.Get(old(table), key, ttl, now) && table == T.AfterGet(old(table), key, ttl, now)
      ensures r == if key in old(table) && !(ttl && 0 < old(table)[key].expire < now) then Some(old(table)[key].value) else None
      ensures table == if key in old(table) && ttl && 0 < old(table)[key].expire < now then old(table) - {key} else old(table)
      ensures forall n <- chain :: n in old(chain)
    {
      hide Linked, Sorted, Distinct, TopLevel, Represents, Splits, Update;
      var update, current, idx, p := FindUpdate(key);
      if current == null { return None; }
      if ttl && current.expire > 0 && now > current.expire {
        Remove(current, update, idx, p);
        return None;
      }
      return Some(current.value);
    }

    // 0 if the key was there, 1 if not.
    method Del(key: Bytes) returns (r: int)
      requires Valid()
      modifies this`level, this`count, this`chain, this`table, chain`forward
      ensures Valid() && r == (if key in old(table) then 0 else 1) && table == old(table) - {key}
      ensures forall n <- chain :: n in old(chain)
    {
      hide Linked, Sorted, Distinct, TopLevel, Represents, Splits, Update;
      var update, current, idx, p := FindUpdate(key);
      if current == null {
        assert table == table - {key};
        return 1;
      }
      Remove(current, update, idx, p);
      return 0;
    }

    method DelIfExpired(key: Bytes, expected: int) returns (r: int)
      requires Valid()
      modifies this`level, this`count, this`chain, this`table, chain`forward
      ensures Valid() && r == (if T.Due(old(table), key, expected) then 1 else 0)
      ensures table == T.AfterTimer(old(table), key, expected)
      ensures forall n <- chain :: n in old(chain)
    {
      hide Linked, Sorted, Distinct, TopLevel, Represents, Splits, Update;
      var update, current, idx, p := FindUpdate(key);
      if current != null && current.expire == expected {
        var d := Del(key);
        return 1;
      }
      return 0;
    }

    // What the callback is given, in order.
    method ForEach(ttl: bool, now: int) returns (s: seq<T.Visit>)
      requires Valid()
      ensures T.Listing(table, ttl, now, s)
    {
      s := [];
      hide Linked, Sorted, Distinct, TopLevel, Represents, T.Listing, Unexpired;
      UnexpiredIsListing(chain, table, ttl, now);
      NextNode(chain, 0);
      var node := header.forward[0];
      ghost var a: nat, all := 1, Unexpired(chain, 1, ttl, now);
      assert all == [] + all;
      while node != null
        invariant 1 <= a <= |chain| && node == if a < |chain| then chain[a] else null
        invariant all == s + Unexpired(chain, a, ttl, now)
        decreases |chain| - a
      {
        NextNode(chain, a);
        var next := node.forward[0];
        UnexpiredStep(chain, a, ttl, now, s);
        if !(ttl && node.expire > 0 && now > node.expire) {
          s := s + [(node.key, T.Entry(node.value, node.expire))];
        }
        node, a := next, a + 1;
      }
      UnexpiredEnds(chain, ttl, now);
      assert all == s;
    }
  }
}
