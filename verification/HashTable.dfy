// The chained hash table of kvs_hash.c with its growing and shrinking. The hash
// is any deterministic function of the key; a node keeps the one of its key.
module HashTable {
  import opened KvData
  import opened HashChains
  import T = Table
  import IdList

  const INIT_SLOTS: nat := 16

  // 16, 32, 64, ...
  ghost predicate SlotsOk(n: nat) {
    n == INIT_SLOTS || (n > INIT_SLOTS && n % 2 == 0 && SlotsOk(n / 2))
  }

  lemma {:induction false} SlotsDouble(n: nat)
    requires SlotsOk(n)
    ensures SlotsOk(n * 2) && n >= INIT_SLOTS && n % 4 == 0
    ensures n > INIT_SLOTS ==> SlotsOk(n / 2) && n / 2 * 2 == n && n / 2 % 4 == 0 && n / 2 >= INIT_SLOTS
  {
    if n > INIT_SLOTS { SlotsDouble(n / 2); }
    assert n * 2 / 2 == n;
  }

  function Two(k: nat): nat {
    if k == 0 then 1 else 2 * Two(k - 1)
  }

  lemma {:induction false} SlotsArePowers(n: nat) returns (k: nat)
    requires SlotsOk(n)
    ensures n == 16 * Two(k)
  {
    if n == INIT_SLOTS {
      k := 0;
    } else {
      var j := SlotsArePowers(n / 2);
      k := j + 1;
    }
  }

  // The nodes are the entries of the table, each with its key's hash.
  ghost predicate Represents(S: set<HashNode>, m: T.Table, hashOf: Bytes -> nat)
    reads S`value, S`expire
  {
    && (forall n <- S :: n.hash == hashOf(n.key) && n.key in m && m[n.key] == T.Entry(n.value, n.expire))
    && (forall n <- S, o <- S :: n.key == o.key ==> n == o)
    && (forall k <- m :: HasKey(S, k))
  }

  ghost predicate HasKey(S: set<HashNode>, k: Bytes) {
    exists n <- S :: n.key == k
  }

  lemma {:induction false} RepresentsMore(S: set<HashNode>, m: T.Table, f: Bytes -> nat, x: HashNode)
    requires Represents(S, m, f) && x.key !in m && x.hash == f(x.key)
    ensures x !in S && Represents(S + {x}, m[x.key := T.Entry(x.value, x.expire)], f)
  {
    var m' := m[x.key := T.Entry(x.value, x.expire)];
    forall k | k in m' ensures HasKey(S + {x}, k) {
      if k == x.key { assert x in S + {x}; } else {
        var n :| n in S && n.key == k;
        assert n in S + {x};
      }
    }
  }

  lemma {:induction false} RepresentsLess(S: set<HashNode>, m: T.Table, f: Bytes -> nat, x: HashNode)
    requires Represents(S, m, f) && x in S
    ensures x.key in m && x.hash == f(x.key) && Represents(S - {x}, m - {x.key}, f)
  {
    forall k | k in m - {x.key} ensures HasKey(S - {x}, k) {
      var n :| n in S && n.key == k;
      assert n in S - {x};
    }
  }

  class HashTable {
    const hashOf: Bytes -> nat
    var buckets: array<HashNode?>
    var maxSlots: nat
    var count: nat
    ghost var lists: seq<List>
    ghost var nodes: set<HashNode>
    ghost var table: T.Table

    ghost predicate BucketsOk()
      reads this`buckets, this`maxSlots, this`lists, this`nodes, buckets, nodes`next
    {
      maxSlots == buckets.Length && SlotsOk(maxSlots) && Table(buckets[..], lists, nodes)
    }

    // The load bound: never more entries than slots, and, beyond the 16 slots at
    // the start, at least a quarter as many.
    ghost predicate Loaded()
      reads this`count, this`maxSlots, this`table
    {
      count == |table| && count <= maxSlots && (maxSlots == INIT_SLOTS || count >= maxSlots / 4)
    }

    ghost predicate Valid()
      reads this, buckets, nodes`next, nodes`value, nodes`expire
    {
      BucketsOk() && Represents(nodes, table, hashOf) && Loaded()
    }

    constructor (hashOf: Bytes -> nat)
      ensures Valid() && table == map[] && this.hashOf == hashOf && fresh(buckets) && nodes == {}
    {
      this.hashOf := hashOf;
      maxSlots, count := INIT_SLOTS, 0;
      buckets := new HashNode?[INIT_SLOTS](i => null);
      lists, nodes, table := seq(INIT_SLOTS, i => []), {}, map[];
      new;
      EmptyTable(buckets[..], lists);
    }

    // ---------------------------------------------------------------- lookup

    // The node of the key in its bucket h, and the one before it.
    method Find(key: Bytes) returns (node: HashNode?, prev: HashNode?, h: nat, ghost a: nat)
      requires BucketsOk() && Represents(nodes, table, hashOf)
      ensures h < maxSlots && h == hashOf(key) % maxSlots && |lists| == maxSlots
      ensures a <= |lists[h]| && node == At(lists[h], a)
      ensures prev == if a > 0 then lists[h][a - 1] else null
      ensures node != null ==> node in nodes && node.key == key && key in table && table[key] == T.Entry(node.value, node.expire)
      ensures node == null ==> key !in table
    {
      h := hashOf(key) % maxSlots;
      assert Linked(buckets[..], lists, nodes, h);
      node, prev, a := buckets[h], null, 0;
      ghost var s := lists[h];
      while node != null
        invariant a <= |s| && node == At(s, a) && prev == if a > 0 then s[a - 1] else null
        invariant forall j :: 0 <= j < a ==> s[j].key != key
        decreases |s| - a
      {
        CompareSymmetric(node.key, key);
        if Compare(node.key, key) == 0 {
          assert node in s;
          return;
        }
        prev, node, a := node, node.next, a + 1;
      }
    }

    // --------------------------------------------------- linking and unlinking

    method PushFront(x: HashNode, h: nat)
      requires BucketsOk() && x !in nodes && h < maxSlots && h == Bucket(x, maxSlots)
      modifies x`next, buckets, this`lists, this`nodes
      ensures BucketsOk() && nodes == old(nodes) + {x}
    {
      x.next := buckets[h];
      PushedTable(buckets[..], lists, nodes, x);
      ghost var b := buckets[..];
      buckets[h] := x;
      assert buckets[..] == b[h := x];
      lists, nodes := lists[h := [x] + lists[h]], nodes + {x};
    }

    method Unlink(node: HashNode, prev: HashNode?, h: nat, ghost a: nat)
      requires BucketsOk() && h < |lists| == maxSlots && a < |lists[h]| && node == lists[h][a]
      requires prev == if a > 0 then lists[h][a - 1] else null
      modifies buckets, nodes`next, this`lists, this`nodes
      ensures BucketsOk() && node in old(nodes) && nodes == old(nodes) - {node}
    {
      hide SlotsOk, Sorted, Removed, Table, Chain, Distinct;
      ghost var s, b := lists[h], buckets[..];
      ChainsApart(b, lists, nodes, h, if prev != null then {prev, node} else {node});
      RemovedSorted(lists, nodes, h, a);
      LinkPast(node, prev, h, a, s);
      forall i | 0 <= i < |lists| && i != h ensures Chain(b[i], lists[i]) {}
      lists, nodes := lists[h := Removed(s, a)], nodes - {node};
      AllChains(buckets[..], lists, nodes);
    }

    method LinkPast(node: HashNode, prev: HashNode?, h: nat, ghost a: nat, ghost s: List)
      requires h < buckets.Length && a < |s| && node == s[a] && Chain(buckets[h], s)
      requires prev == if a > 0 then s[a - 1] else null
      modifies buckets, (if prev != null then {prev} else {})`next
      ensures Chain(buckets[h], Removed(s, a)) && buckets[..] == old(buckets[..])[h := buckets[h]]
    {
      RemovedAt(s, a, 0);
      if prev != null {
        prev.next := node.next;
      } else {
        buckets[h] := node.next;
      }
      RemovedChain(buckets[h], s, a);
    }

    // ---------------------------------------------------------------- resizing

    // Moves every node to the front of its new bucket, by its cached hash.
    method Resize(newSlots: nat)
      requires BucketsOk() && SlotsOk(newSlots) && newSlots > 0
      modifies this`buckets, this`maxSlots, this`lists, nodes`next
      ensures BucketsOk() && maxSlots == newSlots && fresh(buckets)
    {
      hide SlotsOk, Table, Sorted, ChainsFrom, BelowBucket;
      TableIsSorted(buckets[..], lists, nodes);
      EveryChain(buckets[..], lists, nodes);
      var newBuckets;
      ghost var newLists;
      newBuckets, newLists := MakeBuckets(newSlots);
      newLists := MoveAll(newBuckets, newLists);
      buckets, maxSlots, lists := newBuckets, newSlots, newLists;
    }

    method MakeBuckets(slots: nat) returns (b: array<HashNode?>, ghost newLists: seq<List>)
      requires slots > 0
      ensures fresh(b) && |newLists| == b.Length == slots && Table(b[..], newLists, {})
    {
      b := new HashNode?[slots](i => null);
      newLists := seq(slots, i => []);
      EmptyTable(b[..], newLists);
    }

    method MoveAll(newBuckets: array<HashNode?>, ghost lists0: seq<List>) returns (ghost newLists: seq<List>)
      requires 0 < maxSlots == buckets.Length == |lists| && newBuckets != buckets && newBuckets.Length > 0
      requires Sorted(lists, nodes) && ChainsFrom(buckets[..], lists, nodes, 0)
      requires |lists0| == newBuckets.Length && Table(newBuckets[..], lists0, BelowBucket(nodes, maxSlots, 0))
      modifies newBuckets, nodes`next
      ensures |newLists| == newBuckets.Length && Table(newBuckets[..], newLists, nodes)
    {
      hide Table, Sorted, ChainsFrom, BelowBucket;
      newLists := lists0;
      var i := 0;
      while i < maxSlots
        invariant 0 <= i <= maxSlots && |newLists| == newBuckets.Length
        invariant Table(newBuckets[..], newLists, BelowBucket(nodes, maxSlots, i))
        invariant ChainsFrom(buckets[..], lists, nodes, i)
      {
        newLists := MoveBucket(i, newBuckets, newLists);
        i := i + 1;
      }
      AllBelow(nodes, maxSlots);
    }

    method MoveBucket(i: nat, newBuckets: array<HashNode?>, ghost lists0: seq<List>) returns (ghost newLists: seq<List>)
      requires i < maxSlots == buckets.Length == |lists| && |lists0| == newBuckets.Length && newBuckets != buckets && newBuckets.Length > 0
      requires Sorted(lists, nodes) && ChainsFrom(buckets[..], lists, nodes, i)
      requires Table(newBuckets[..], lists0, BelowBucket(nodes, maxSlots, i))
      modifies newBuckets, nodes`next
      ensures |newLists| == newBuckets.Length
      ensures Table(newBuckets[..], newLists, BelowBucket(nodes, maxSlots, i + 1))
      ensures ChainsFrom(buckets[..], lists, nodes, i + 1)
    {
      hide Sorted, Table, BelowBucket;
      ListIs(lists, nodes, i);
      ghost var b := buckets[..];
      assert Linked(b, lists, nodes, i) && b[i] == buckets[i];
      newLists := MoveChain(buckets[i], lists[i], newBuckets, lists0, BelowBucket(nodes, maxSlots, i));
      forall j | i < j < |lists| ensures Linked(b, lists, nodes, j) {
        assert old(Linked(b, lists, nodes, j));
        assert forall n <- lists[j] :: n in Elems(lists[j]);
      }
    }

    method MoveChain(head: HashNode?, ghost s: List, newBuckets: array<HashNode?>, ghost lists0: seq<List>,
                     ghost S: set<HashNode>) returns (ghost newLists: seq<List>)
      requires Chain(head, s) && Elems(s) !! S && newBuckets.Length > 0
      requires Table(newBuckets[..], lists0, S)
      modifies newBuckets, Elems(s)`next
      ensures |newLists| == newBuckets.Length && Table(newBuckets[..], newLists, S + Elems(s))
    {
      var node := head;
      ghost var todo, moved := s, S;
      newLists := lists0;
      while node != null
        invariant Chain(node, todo) && Elems(todo) !! moved && moved + Elems(todo) == S + Elems(s)
        invariant Elems(todo) <= Elems(s)
        invariant |newLists| == newBuckets.Length && Table(newBuckets[..], newLists, moved)
        decreases |todo|
      {
        ghost var n := node;
        FirstElem(todo);
        node, newLists := MoveOne(node, todo, newBuckets, newLists, moved);
        moved, todo := moved + {n}, todo[1..];
      }
      assert todo == [] && moved == S + Elems(s);
    }

    method MoveOne(node: HashNode, ghost s: List, newBuckets: array<HashNode?>, ghost lists0: seq<List>,
                   ghost S: set<HashNode>) returns (next: HashNode?, ghost newLists: seq<List>)
      requires s != [] && s[0] == node && Chain(node, s) && node !in S && newBuckets.Length > 0
      requires Table(newBuckets[..], lists0, S)
      modifies newBuckets, node`next
      ensures Chain(next, s[1..])
      ensures |newLists| == newBuckets.Length && Table(newBuckets[..], newLists, S + {node})
    {
      next := node.next;
      assert forall a :: 1 <= a < |s| ==> s[a] == s[1..][a - 1];
      var h := node.hash % newBuckets.Length;
      node.next := newBuckets[h];
      ghost var b := newBuckets[..];
      PushedTable(b, lists0, S, node);
      newBuckets[h] := node;
      assert newBuckets[..] == b[h := node];
      newLists := lists0[h := [node] + lists0[h]];
    }

    // -------------------------------------------------------------- operations

    // Whenever the count has reached the number of slots there is room made.
    method MakeRoom()
      requires Valid()
      modifies this`buckets, this`maxSlots, this`lists, nodes`next
      ensures Valid() && count < maxSlots && (buckets == old(buckets) || fresh(buckets))
    {
      hide SlotsOk, Table, Represents;
      if count >= maxSlots {
        SlotsDouble(maxSlots);
        Resize(maxSlots * 2);
      }
    }

    method Add(key: Bytes, value: Bytes, expire: int)
      requires BucketsOk() && Represents(nodes, table, hashOf) && key !in table && count == |table| < maxSlots
      requires maxSlots == INIT_SLOTS || count + 1 >= maxSlots / 4
      modifies buckets, this`lists, this`nodes, this`table, this`count
      ensures Valid() && table == T.Set(old(table), key, value, expire)
      ensures forall n <- nodes :: n in old(nodes) || fresh(n)
    {
      hide SlotsOk, Table, Represents;
      var h := hashOf(key) % maxSlots;
      var x := new HashNode(key, hashOf(key), value, expire);
      RepresentsMore(nodes, table, hashOf, x);
      PushFront(x, h);
      table := table[key := T.Entry(value, expire)];
      count := count + 1;
    }

    method Drop(node: HashNode, prev: HashNode?, h: nat, ghost a: nat)
      requires Valid() && h < |lists| == maxSlots && a < |lists[h]| && node == lists[h][a]
      requires node in nodes && prev == if a > 0 then lists[h][a - 1] else null
      modifies buckets, nodes`next, this`lists, this`nodes, this`table, this`count
      ensures BucketsOk() && Represents(nodes, table, hashOf) && nodes == old(nodes) - {node}
      ensures table == old(table) - {node.key} && count == |table| == old(count) - 1
    {
      hide SlotsOk, Table, Represents;
      RepresentsLess(nodes, table, hashOf, node);
      Unlink(node, prev, h, a);
      table := table - {node.key};
      count := count - 1;
    }

    method Overwrite(node: HashNode, value: Bytes, expire: int)
      requires Valid() && node in nodes
      modifies node`value, node`expire, this`table
      ensures Valid() && table == T.Set(old(table), node.key, value, expire)
    {
      hide SlotsOk, Table, Represents;
      RepresentsLess(nodes, table, hashOf, node);
      node.value, node.expire := value, expire;
      RepresentsMore(nodes - {node}, table - {node.key}, hashOf, node);
      assert nodes - {node} + {node} == nodes;
      table := table[node.key := T.Entry(value, expire)];
      assert table == old(table - {node.key})[node.key := T.Entry(value, expire)];
    }

    // A value too long for its node gets a new one.
    method Replace(node: HashNode, prev: HashNode?, h: nat, ghost a: nat, value: Bytes, expire: int)
      requires Valid() && h < |lists| == maxSlots && a < |lists[h]| && node == lists[h][a]
      requires node in nodes && prev == if a > 0 then lists[h][a - 1] else null
      modifies buckets, nodes`next, this`lists, this`nodes, this`table, this`count
      ensures Valid() && table == T.Set(old(table), node.key, value, expire)
      ensures forall n <- nodes :: n in old(nodes) || fresh(n)
    {
      hide SlotsOk, Table, Represents;
      Drop(node, prev, h, a);
      Add(node.key, value, expire);
    }

    method Set(key: Bytes, value: Bytes, expire: int)
      requires Valid()
      modifies this, buckets, nodes`next, nodes`value, nodes`expire
      ensures Valid() && table == T.Set(old(table), key, value, expire)
      ensures buckets == old(buckets) || fresh(buckets)
      ensures forall n <- nodes :: n in old(nodes) || fresh(n)
    {
      hide SlotsOk, Table, Represents;
      MakeRoom();
      var node, prev, h, a := Find(key);
      if node != null {
        if |value| <= |node.value| {
          Overwrite(node, value, expire);
        } else {
          Replace(node, prev, h, a, value, expire);
        }
      } else {
        Add(key, value, expire);
      }
    }

    // 0 if the key was there, 1 if not.
    method Del(key: Bytes) returns (r: int)
      requires Valid()
      modifies this`buckets, this`maxSlots, this`lists, this`nodes, this`table, this`count, buckets, nodes`next
      ensures Valid() && r == (if key in old(table) then 0 else 1) && table == old(table) - {key}
      ensures buckets == old(buckets) || fresh(buckets)
      ensures nodes <= old(nodes)
    {
      hide SlotsOk, Table, Represents;
      var node, prev, h, a := Find(key);
      if node == null {
        assert table == table - {key};
        return 1;
      }
      SlotsDouble(maxSlots);
      Drop(node, prev, h, a);
      if count < maxSlots / 4 && maxSlots > INIT_SLOTS {
        Resize(maxSlots / 2);
      }
      return 0;
    }

    method Get(key: Bytes, ttl: bool, now: int) returns (r: Option<Bytes>)
      requires Valid()
      modifies this`buckets, this`maxSlots, this`lists, this`nodes, this`table, this`count, buckets, nodes`next
      ensures Valid() && r == T.Get(old(table), key, ttl, now) && table == T.AfterGet(old(table), key, ttl, now)
      ensures r == if key in old(table) && !(ttl && 0 < old(table)[key].expire < now) then Some(old(table)[key].value) else None
      ensures table == if key in old(table) && ttl && 0 < old(table)[key].expire < now then old(table) - {key} else old(table)
      ensures buckets == old(buckets) || fresh(buckets)
      ensures nodes <= old(nodes)
    {
      hide SlotsOk, Table, Represents;
      var node, prev, h, a := Find(key);
      if node == null { return None; }
      if ttl && node.expire > 0 && now > node.expire {
        var d := Del(key);
        return None;
      }
      return Some(node.value);
    }

    method DelIfExpired(key: Bytes, expected: int) returns (r: int)
      requires Valid()
      modifies this`buckets, this`maxSlots, this`lists, this`nodes, this`table, this`count, buckets, nodes`next
      ensures Valid() && r == (if T.Due(old(table), key, expected) then 1 else 0)
      ensures table == T.AfterTimer(old(table), key, expected)
    {
      hide SlotsOk, Table, Represents;
      var node, prev, h, a := Find(key);
      if node != null && node.expire == expected {
        var d := Del(key);
        return 1;
      }
      return 0;
    }

    // Adds an id to the list under a key, once.
    method Append(key: Bytes, id: Bytes, ttl: bool, now: int) returns (r: int)
      requires Valid()
      modifies this, buckets, nodes`next, nodes`value, nodes`expire
      ensures Valid() && r == if id == [] then -1 else 0
      ensures var before := T.Get(old(table), key, ttl, now);
        var after := IdList.Append(before, id);
        table == if id == [] then old(table)
                 else if after == before then T.AfterGet(old(table), key, ttl, now)
                 else T.Set(T.AfterGet(old(table), key, ttl, now), key, after.value, 0)
    {
      if id == [] { return -1; }
      hide BucketsOk, Loaded, Represents, IdList.Append;
      var existing := Get(key, ttl, now);
      Extend(key, existing, id);
      return 0;
    }

    method Extend(key: Bytes, existing: Option<Bytes>, id: Bytes)
      requires Valid() && id != []
      modifies this, buckets, nodes`next, nodes`value, nodes`expire
      ensures Valid()
      ensures var after := IdList.Append(existing, id);
        after.Some? && table == if after == existing then old(table) else T.Set(old(table), key, after.value, 0)
    {
      hide BucketsOk, Loaded, Represents, IdList.Split;
      var value := id;
      if existing != None && existing.value != [] {
        var found := IdList.HasToken(existing.value, id);
        if found { return; }
        value := existing.value + [IdList.COMMA] + id;
      }
      Set(key, value, 0);
    }

    // Never more entries than slots, and beyond 16 slots at least a quarter as many.
    lemma {:induction false} LoadBound()
      requires Valid()
      ensures |table| <= buckets.Length && (buckets.Length > 16 ==> buckets.Length <= 4 * |table|)
    {
      hide Table, Represents;
      SlotsDouble(maxSlots);
    }

    // kvs_hash_foreach: the calls it makes to its callback, bucket by bucket.
    method ForEach(ttl: bool, clock: int) returns (calls: seq<T.Visit>)
      requires Valid()
      ensures T.Once(calls) && T.Covers(table, ttl, clock, calls)
    {
      hide SlotsOk, Table, Sorted, Represents, T.Covers, T.Once, Visits, Upto;
      var now := 0;
      if ttl { now := clock; }
      EveryBucket(buckets[..], lists, nodes);
      UptoStarts(lists, ttl, now);
      calls := [];
      var i := 0;
      while i < maxSlots
        invariant 0 <= i <= maxSlots && calls == Visits(Upto(lists, i), ttl, now)
      {
        calls := VisitBucket(i, calls, ttl, now);
        i := i + 1;
      }
      AllVisited(lists, nodes, table, hashOf, ttl, now);
      if !ttl { ClockUnread(table, now, clock, calls); }
    }

    method VisitBucket(i: nat, before: seq<T.Visit>, ttl: bool, now: int) returns (calls: seq<T.Visit>)
      requires i < maxSlots == buckets.Length == |lists| && Chain(buckets[i], lists[i])
      requires before == Visits(Upto(lists, i), ttl, now)
      ensures calls == Visits(Upto(lists, i + 1), ttl, now)
    {
      hide Visits;
      calls := before;
      ghost var s, all := lists[i], Upto(lists, i);
      ghost var a: nat := 0;
      var node := buckets[i];
      assert all + s[..0] == all;
      while node != null
        invariant a <= |s| && node == At(s, a) && calls == Visits(all + s[..a], ttl, now)
        decreases |s| - a
      {
        assert all + s[..a + 1] == (all + s[..a]) + [node];
        VisitsMore(all + s[..a], node, ttl, now);
        if !(ttl && node.expire > 0 && now > node.expire) {
          calls := calls + [(node.key, T.Entry(node.value, node.expire))];
        }
        node, a := node.next, a + 1;
      }
      assert s[..a] == s;
    }
  }

  // ------------------------------------------------------------- a traversal

  // The nodes of the buckets before i, in order.
  ghost function Upto(lists: seq<List>, i: nat): List
    requires i <= |lists|
  {
    if i == 0 then [] else Upto(lists, i - 1) + lists[i - 1]
  }

  // The calls for the nodes along s that have not expired.
  ghost function Visits(s: List, ttl: bool, now: int): seq<T.Visit>
    reads s`value, s`expire
  {
    if s == [] then []
    else
      var rest, n := s[..|s| - 1], s[|s| - 1];
      assert forall x <- rest :: x in s;
      var e := T.Entry(n.value, n.expire);
      Visits(rest, ttl, now) + if T.Expired(e, ttl, now) then [] else [(n.key, e)]
  }

  lemma {:induction false} VisitsMore(s: List, n: HashNode, ttl: bool, now: int)
    ensures var e := T.Entry(n.value, n.expire);
      Visits(s + [n], ttl, now) == if T.Expired(e, ttl, now) then Visits(s, ttl, now) else Visits(s, ttl, now) + [(n.key, e)]
  {
    assert (s + [n])[..|s|] == s;
  }

  lemma {:induction false} UptoStarts(lists: seq<List>, ttl: bool, now: int)
    ensures Visits(Upto(lists, 0), ttl, now) == []
  {}

  lemma {:induction false} EveryBucket(b: seq<HashNode?>, lists: seq<List>, S: set<HashNode>)
    requires Table(b, lists, S)
    ensures Sorted(lists, S) && |b| == |lists|
    ensures forall i :: 0 <= i < |lists| ==> Chain(b[i], lists[i])
    ensures forall i :: 0 <= i < |lists| ==> Distinct(lists[i])
  {
    forall i | 0 <= i < |lists| ensures Chain(b[i], lists[i]) { assert Linked(b, lists, S, i); }
  }

  // Buckets before i have exactly the nodes that belong there, each once.
  lemma {:induction false} UptoIs(lists: seq<List>, S: set<HashNode>, i: nat)
    requires Sorted(lists, S) && i <= |lists| && forall j :: 0 <= j < |lists| ==> Distinct(lists[j])
    ensures Elems(Upto(lists, i)) == BelowBucket(S, |lists|, i) && Distinct(Upto(lists, i))
  {
    if i > 0 {
      UptoIs(lists, S, i - 1);
      var front, last := Upto(lists, i - 1), lists[i - 1];
      forall n ensures n in front + last <==> n in BelowBucket(S, |lists|, i) {
        assert n in front <==> n in Elems(front);
      }
      forall a, b | 0 <= a < b < |front + last| ensures (front + last)[a] != (front + last)[b] {
        if a < |front| <= b {
          assert front[a] in Elems(front) && last[b - |front|] in last;
        }
      }
      assert Upto(lists, i) == front + last;
      assert Elems(front + last) == BelowBucket(S, |lists|, i);
    } else {
      assert Elems(Upto(lists, 0)) == {} == BelowBucket(S, |lists|, 0);
    }
  }

  lemma {:induction false} VisitsFrom(s: List, ttl: bool, now: int, i: nat) returns (a: nat)
    requires i < |Visits(s, ttl, now)|
    ensures a < |s| && Visits(s, ttl, now)[i] == (s[a].key, T.Entry(s[a].value, s[a].expire))
    ensures !T.Expired(T.Entry(s[a].value, s[a].expire), ttl, now)
  {
    var rest := s[..|s| - 1];
    if i < |Visits(rest, ttl, now)| {
      a := VisitsFrom(rest, ttl, now, i);
    } else {
      a := |s| - 1;
    }
  }

  lemma {:induction false} VisitsHas(s: List, ttl: bool, now: int, a: nat)
    requires a < |s| && !T.Expired(T.Entry(s[a].value, s[a].expire), ttl, now)
    ensures exists i :: 0 <= i < |Visits(s, ttl, now)| && Visits(s, ttl, now)[i].0 == s[a].key
  {
    var rest := s[..|s| - 1];
    if a < |rest| {
      VisitsHas(rest, ttl, now, a);
      var i :| 0 <= i < |Visits(rest, ttl, now)| && Visits(rest, ttl, now)[i].0 == rest[a].key;
      assert Visits(s, ttl, now)[i].0 == s[a].key;
    } else {
      assert Visits(s, ttl, now)[|Visits(s, ttl, now)| - 1].0 == s[a].key;
    }
  }

  lemma {:induction false} VisitsOnce(s: List, ttl: bool, now: int)
    requires forall a, b :: 0 <= a < b < |s| ==> s[a].key != s[b].key
    ensures T.Once(Visits(s, ttl, now))
  {
    if s != [] {
      var n := |s| - 1;
      VisitsOnce(s[..n], ttl, now);
      var v := Visits(s[..n], ttl, now);
      forall i | 0 <= i < |v| ensures v[i].0 != s[n].key { var a := VisitsFrom(s[..n], ttl, now, i); }
    }
  }

  lemma {:induction false} AllVisited(lists: seq<List>, S: set<HashNode>, m: T.Table, f: Bytes -> nat, ttl: bool, now: int)
    requires Sorted(lists, S) && Represents(S, m, f) && forall j :: 0 <= j < |lists| ==> Distinct(lists[j])
    ensures var calls := Visits(Upto(lists, |lists|), ttl, now);
      T.Once(calls) && T.Covers(m, ttl, now, calls)
  {
    var s := Upto(lists, |lists|);
    var calls := Visits(s, ttl, now);
    UptoIs(lists, S, |lists|);
    AllBelow(S, |lists|);
    assert forall n :: n in s <==> n in Elems(s);
    hide Sorted, Upto, Visits, BelowBucket;
    VisitsOnce(s, ttl, now);
    forall i | 0 <= i < |calls|
      ensures calls[i].0 in m && m[calls[i].0] == calls[i].1 && !T.Expired(calls[i].1, ttl, now)
    {
      var a := VisitsFrom(s, ttl, now, i);
      assert s[a] in S;
    }
    forall k | k in m && !T.Expired(m[k], ttl, now) ensures exists i :: 0 <= i < |calls| && calls[i].0 == k {
      assert HasKey(S, k);
      var n :| n in S && n.key == k;
      var a :| 0 <= a < |s| && s[a] == n;
      VisitsHas(s, ttl, now, a);
    }
  }

  // With TTL off nothing has expired, whatever the clock says.
  lemma {:induction false} ClockUnread(m: T.Table, now: int, clock: int, s: seq<T.Visit>)
    requires T.Covers(m, false, now, s)
    ensures T.Covers(m, false, clock, s)
  {}

  ghost function Elems(s: List): set<HashNode> {
    set n | n in s
  }

  lemma {:induction false} FirstElem(s: List)
    requires s != [] && Distinct(s)
    ensures Elems(s) == {s[0]} + Elems(s[1..]) && s[0] !in Elems(s[1..])
  {
    assert s == [s[0]] + s[1..];
  }

  ghost function BelowBucket(S: set<HashNode>, slots: nat, i: nat): set<HashNode>
    requires slots > 0
  {
    set n | n in S && Bucket(n, slots) < i
  }

  lemma {:induction false} TableIsSorted(b: seq<HashNode?>, lists: seq<List>, S: set<HashNode>)
    requires Table(b, lists, S)
    ensures Sorted(lists, S) && |b| == |lists| > 0 && BelowBucket(S, |lists|, 0) == {}
  {}

  lemma {:induction false} AllBelow(S: set<HashNode>, slots: nat)
    requires slots > 0
    ensures BelowBucket(S, slots, slots) == S
  {}

  lemma {:induction false} ListIs(lists: seq<List>, S: set<HashNode>, i: nat)
    requires Sorted(lists, S) && i < |lists|
    ensures Elems(lists[i]) <= S && Elems(lists[i]) !! BelowBucket(S, |lists|, i)
    ensures BelowBucket(S, |lists|, i + 1) == BelowBucket(S, |lists|, i) + Elems(lists[i])
    ensures forall j :: i < j < |lists| ==> Elems(lists[j]) !! Elems(lists[i])
  {
    forall n | n in S ensures n in Elems(lists[i]) <==> Bucket(n, |lists|) == i {
      assert n in lists[Bucket(n, |lists|)];
    }
  }

  // The buckets from i on are still as they were.
  ghost predicate ChainsFrom(b: seq<HashNode?>, lists: seq<List>, S: set<HashNode>, i: nat)
    requires Sorted(lists, S) && |b| == |lists|
    reads S`next
  {
    forall j :: i <= j < |lists| ==> Linked(b, lists, S, j)
  }

  lemma {:induction false} EveryChain(b: seq<HashNode?>, lists: seq<List>, S: set<HashNode>)
    requires Table(b, lists, S)
    ensures |b| == |lists| && ChainsFrom(b, lists, S, 0)
  {}

  // Every bucket has its chain, and nodes of one are in no other.
  lemma {:induction false} ChainsApart(b: seq<HashNode?>, lists: seq<List>, S: set<HashNode>, h: nat, some: set<HashNode>)
    requires Table(b, lists, S) && h < |lists| && forall x <- some :: x in lists[h]
    ensures Sorted(lists, S) && |b| == |lists| && some <= S
    ensures Distinct(lists[h])
    ensures forall i :: 0 <= i < |lists| ==> Chain(b[i], lists[i]) && (i != h ==> forall x <- lists[i] :: x !in some)
  {
    forall i | 0 <= i < |lists| ensures Chain(b[i], lists[i]) { assert Linked(b, lists, S, i); }
  }

  lemma {:induction false} AllChains(b: seq<HashNode?>, lists: seq<List>, S: set<HashNode>)
    requires Sorted(lists, S) && |b| == |lists|
    requires forall i :: 0 <= i < |lists| ==> Chain(b[i], lists[i])
    ensures Table(b, lists, S)
  {
    forall i | 0 <= i < |lists| ensures Linked(b, lists, S, i) {
      assert Chain(b[i], lists[i]);
    }
  }
}
