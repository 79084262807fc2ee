// The array engine of kvs_array.c: entries in the order of their arrival, found
// by a scan.
module ArrayTable {
  import opened KvData
  import T = Table

  const CAPACITY: nat := 100_000

  datatype Cell = Cell(key: Bytes, entry: T.Entry)

  // A cell with an empty key has no key at all and is never found.
  ghost predicate Represents(s: seq<Cell>, m: T.Table) {
    && (forall i :: 0 <= i < |s| && s[i].key != [] ==> s[i].key in m && m[s[i].key] == s[i].entry)
    && (forall i, j :: 0 <= i < j < |s| && s[i].key != [] ==> s[i].key != s[j].key)
    && (forall k <- m :: k != [] && HasKey(s, k))
  }

  ghost predicate HasKey(s: seq<Cell>, k: Bytes) {
    exists i :: 0 <= i < |s| && s[i].key == k
  }

  lemma {:induction false} Overwritten(s: seq<Cell>, m: T.Table, i: nat, e: T.Entry)
    requires Represents(s, m) && i < |s| && s[i].key != []
    ensures Represents(s[i := Cell(s[i].key, e)], m[s[i].key := e])
  {
    var t := s[i := Cell(s[i].key, e)];
    forall k | k in m[s[i].key := e] ensures k != [] && HasKey(t, k) {
      assert HasKey(s, k);
      var j :| 0 <= j < |s| && s[j].key == k;
      assert t[j].key == k;
    }
  }

  lemma {:induction false} Appended(s: seq<Cell>, m: T.Table, c: Cell)
    requires Represents(s, m) && c.key !in m
    ensures Represents(s + [c], if c.key == [] then m else m[c.key := c.entry])
  {
    var t, m' := s + [c], if c.key == [] then m else m[c.key := c.entry];
    forall k | k in m' ensures k != [] && HasKey(t, k) {
      if k in m {
        assert HasKey(s, k);
        var j :| 0 <= j < |s| && s[j].key == k;
        assert t[j].key == k;
      } else {
        assert t[|s|].key == k;
      }
    }
  }

  // The last cell moves to where one was taken out.
  function Without(s: seq<Cell>, i: nat): (r: seq<Cell>)
    requires i < |s|
    ensures |r| == |s| - 1
    ensures forall j :: 0 <= j < |r| ==> r[j] == if j == i then s[|s| - 1] else s[j]
  {
    s[i := s[|s| - 1]][..|s| - 1]
  }

  lemma {:induction false} TakenOut(s: seq<Cell>, m: T.Table, i: nat)
    requires Represents(s, m) && i < |s| && s[i].key != []
    ensures Represents(Without(s, i), m - {s[i].key})
  {
    var t, n := Without(s, i), |s| - 1;
    forall k | k in m - {s[i].key} ensures k != [] && HasKey(t, k) {
      assert HasKey(s, k);
      var j :| 0 <= j < |s| && s[j].key == k;
      assert t[if j == n then i else j].key == k;
    }
    forall a, b | 0 <= a < b < |t| && t[a].key != [] ensures t[a].key != t[b].key {
      assert s[if a == i then n else a].key != s[if b == i then n else b].key;
    }
  }

  class ArrayTable {
    const items: array<Cell>
    var total: nat
    ghost var table: T.Table

    ghost predicate Valid()
      reads this, items
    {
      items.Length == CAPACITY && total <= CAPACITY && Represents(items[..total], table)
    }

    constructor ()
      ensures Valid() && table == map[] && total == 0 && fresh(items)
    {
      items := new Cell[CAPACITY](i => Cell([], T.Entry([], 0)));
      total, table := 0, map[];
    }

    // find_key_index
    method Find(key: Bytes) returns (i: int)
      requires Valid()
      ensures -1 <= i < total
      ensures i >= 0 ==> key != [] && items[i].key == key && key in table && table[key] == items[i].entry
      ensures i == -1 ==> key !in table
    {
      i := 0;
      while i < total
        invariant 0 <= i <= total && forall j :: 0 <= j < i ==> items[j].key == [] || items[j].key != key
      {
        CompareSymmetric(items[i].key, key);
        if items[i].key != [] && Compare(items[i].key, key) == 0 {
          assert items[..total][i] == items[i];
          return;
        }
        i := i + 1;
      }
      assert key in table ==> key != [] && HasKey(items[..total], key);
      return -1;
    }

    // An empty key takes a cell and is not in the table.
    method Set(key: Bytes, value: Bytes, expire: int) returns (r: int)
      requires Valid()
      modifies this, items
      ensures Valid() && r == (if key in old(table) || old(total) < 100000 then 0 else -1)
      ensures table == if r == 0 && key != [] then T.Set(old(table), key, value, expire) else old(table)
      ensures total == if r == 0 && key !in old(table) then old(total) + 1 else old(total)
    {
      ghost var s := items[..total];
      var e := T.Entry(value, expire);
      var i := Find(key);
      if i >= 0 {
        Overwritten(s, table, i, e);
        items[i] := Cell(key, e);
        assert items[..total] == s[i := Cell(key, e)];
        table := table[key := e];
        return 0;
      }
      if total >= CAPACITY { return -1; }
      Appended(s, table, Cell(key, e));
      items[total] := Cell(key, e);
      total := total + 1;
      assert items[..total] == s + [Cell(key, e)];
      table := if key == [] then table else table[key := e];
      return 0;
    }

    method Del(key: Bytes) returns (r: int)
      requires Valid()
      modifies this, items
      ensures Valid() && r == (if key in old(table) then 0 else 1)
      ensures table == old(table) - {key} && total == if r == 0 then old(total) - 1 else old(total)
    {
      var i := Find(key);
      if i < 0 { return 1; }
      ghost var s := items[..total];
      TakenOut(s, table, i);
      if i != total - 1 {
        items[i] := items[total - 1];
      }
      items[total - 1] := Cell([], T.Entry([], 0));
      total := total - 1;
      assert items[..total] == Without(s, i);
      table := table - {key};
      return 0;
    }

    method Get(key: Bytes, ttl: bool, now: int) returns (r: Option<Bytes>)
      requires Valid()
      modifies this, items
      ensures Valid() && r == T.Get(old(table), key, ttl, now) && table == T.AfterGet(old(table), key, ttl, now)
      ensures r == if key in old(table) && !(ttl && 0 < old(table)[key].expire < now) then Some(old(table)[key].value) else None
      ensures table == if key in old(table) && ttl && 0 < old(table)[key].expire < now then old(table) - {key} else old(table)
    {
      var i := Find(key);
      if i < 0 { return None; }
      var e := items[i].entry;
      if ttl && e.expire > 0 && now > e.expire {
        var d := Del(key);
        return None;
      }
      return Some(e.value);
    }

    method DelIfExpired(key: Bytes, expected: int) returns (r: int)
      requires Valid()
      modifies this, items
      ensures Valid() && r == (if T.Due(old(table), key, expected) then 1 else 0)
      ensures table == T.AfterTimer(old(table), key, expected)
    {
      var i := Find(key);
      if i < 0 || items[i].entry.expire != expected { return 0; }
      var d := Del(key);
      return 1;
    }

    // kvs_array_foreach: with TTL off it makes no call at all.
    method ForEach(ttl: bool, now: int) returns (calls: seq<T.Visit>)
      requires Valid()
      ensures T.Once(calls) && (if ttl then T.Covers(table, ttl, now, calls) else calls == [])
    {
      calls := [];
      if !ttl { return; }
      hide Calls, Represents, T.Covers, T.Once;
      ghost var s := items[..total];
      NoCells(ttl, now);
      var i := 0;
      while i < total
        invariant 0 <= i <= total && calls == Calls(s[..i], ttl, now)
      {
        OneCellMore(s, i, ttl, now);
        if items[i].key != [] && !(items[i].entry.expire > 0 && now > items[i].entry.expire) {
          calls := calls + [(items[i].key, items[i].entry)];
        }
        i := i + 1;
      }
      assert s[..i] == s;
      AllCalled(s, table, ttl, now);
    }
  }

  predicate Shown(c: Cell, ttl: bool, now: int) {
    c.key != [] && !T.Expired(c.entry, ttl, now)
  }

  function Calls(s: seq<Cell>, ttl: bool, now: int): seq<T.Visit> {
    if s == [] then []
    else
      var c := s[|s| - 1];
      Calls(s[..|s| - 1], ttl, now) + if Shown(c, ttl, now) then [(c.key, c.entry)] else []
  }

  lemma {:induction false} NoCells(ttl: bool, now: int)
    ensures Calls([], ttl, now) == []
  {}

  lemma {:induction false} OneCellMore(s: seq<Cell>, i: nat, ttl: bool, now: int)
    requires i < |s|
    ensures Calls(s[..i + 1], ttl, now)
         == if Shown(s[i], ttl, now) then Calls(s[..i], ttl, now) + [(s[i].key, s[i].entry)] else Calls(s[..i], ttl, now)
  {
    assert s[..i + 1][..i] == s[..i];
  }

  lemma {:induction false} CallsFrom(s: seq<Cell>, ttl: bool, now: int, c: nat) returns (i: nat)
    requires c < |Calls(s, ttl, now)|
    ensures i < |s| && Shown(s[i], ttl, now) && Calls(s, ttl, now)[c] == (s[i].key, s[i].entry)
  {
    var n := |s| - 1;
    if c < |Calls(s[..n], ttl, now)| { i := CallsFrom(s[..n], ttl, now, c); } else { i := n; }
  }

  lemma {:induction false} CallsHas(s: seq<Cell>, ttl: bool, now: int, i: nat) returns (c: nat)
    requires i < |s| && Shown(s[i], ttl, now)
    ensures c < |Calls(s, ttl, now)| && Calls(s, ttl, now)[c].0 == s[i].key
  {
    var n := |s| - 1;
    if i < n { c := CallsHas(s[..n], ttl, now, i); } else { c := |Calls(s, ttl, now)| - 1; }
  }

  lemma {:induction false} CallsOnce(s: seq<Cell>, ttl: bool, now: int)
    requires forall i, j :: 0 <= i < j < |s| && s[i].key != [] ==> s[i].key != s[j].key
    ensures T.Once(Calls(s, ttl, now))
  {
    if s != [] {
      var n := |s| - 1;
      CallsOnce(s[..n], ttl, now);
      var v := Calls(s[..n], ttl, now);
      forall c | 0 <= c < |v| ensures v[c].0 != s[n].key { var i := CallsFrom(s[..n], ttl, now, c); }
    }
  }

  lemma {:induction false} AllCalled(s: seq<Cell>, m: T.Table, ttl: bool, now: int)
    requires Represents(s, m)
    ensures T.Once(Calls(s, ttl, now)) && T.Covers(m, ttl, now, Calls(s, ttl, now))
  {
    CallsOnce(s, ttl, now);
    var calls := Calls(s, ttl, now);
    forall c | 0 <= c < |calls| ensures calls[c].0 in m && m[calls[c].0] == calls[c].1 && !T.Expired(calls[c].1, ttl, now) {
      var i := CallsFrom(s, ttl, now, c);
    }
    forall k | k in m && !T.Expired(m[k], ttl, now) ensures exists c :: 0 <= c < |calls| && calls[c].0 == k {
      assert HasKey(s, k);
      var i :| 0 <= i < |s| && s[i].key == k;
      var c := CallsHas(s, ttl, now, i);
    }
  }
}
