// Saving all tables to a file with a checksum, and loading it (snapshot.c).
module Snapshot {
  import opened KvData
  import opened SnapshotCodec
  import Fnv
  import T = Table
  import A = ArrayTable
  import R = RbTree
  import H = HashTable
  import S = SkipList

  const ARRAY: nat := 1
  const RBTREE: nat := 2
  const SKIPLIST: nat := 4

  // All tables in one: entries by table and key.
  type Tables = map<(nat, Bytes), T.Entry>

  function File(rs: seq<Record>): Bytes {
    EncodeAll(rs) + LE(Fnv.Checksum(EncodeAll(rs)), 8)
  }

  predicate Stale(r: Record, now: int) {
    r.expire > 0 && now > r.expire
  }

  function Put(m: Tables, r: Record, now: int): Tables {
    if Stale(r, now) then m else m[(r.kind, r.key) := T.Entry(r.value, r.expire)]
  }

  function Restore(m: Tables, rs: seq<Record>, now: int): Tables
    decreases |rs|
  {
    if rs == [] then m else Restore(Put(m, rs[0], now), rs[1..], now)
  }

  // None if the file is too small or its checksum is wrong.
  function LoadFile(f: Bytes, now: int): Option<Tables> {
    if |f| < 8 then None
    else
      var limit := |f| - 8;
      if Fnv.Checksum(f[..limit]) != UnLE(f[limit..]) then None
      else Some(Restore(map[], Decode(f[..limit], 0), now))
  }

  // ------------------------------------------------------------- round trip

  lemma {:induction false} ChecksumReads(rs: seq<Record>)
    ensures |File(rs)| == |EncodeAll(rs)| + 8 && File(rs)[..|EncodeAll(rs)|] == EncodeAll(rs)
    ensures UnLE(File(rs)[|EncodeAll(rs)|..]) == Fnv.Checksum(EncodeAll(rs))
  {
    assert Pow256(2) == 65536 && Pow256(4) == 65536 * Pow256(2);
    assert Pow256(6) == 65536 * Pow256(4) && Pow256(8) == 65536 * Pow256(6);
    UnLEOfLE(Fnv.Checksum(EncodeAll(rs)), 8);
  }

  // A saved file loads exactly the records up to the first unacceptable one.
  lemma {:induction false} LoadsSaved(rs: seq<Record>, now: int)
    requires forall r <- rs :: Storable(r)
    ensures LoadFile(File(rs), now) == Some(Restore(map[], Accepted(rs), now))
  {
    hide EncodeAll, Restore, Decode, UnLE, LE, File;
    ChecksumReads(rs);
    RoundTrip(rs);
  }

  ghost predicate Unique(rs: seq<Record>) {
    forall i, j :: 0 <= i < j < |rs| ==> (rs[i].kind, rs[i].key) != (rs[j].kind, rs[j].key)
  }

  // What the callbacks of a save wrote: each entry that is visited, once. The
  // array is visited only with TTL on. Each table has its own reading of the clock.
  ghost predicate Saves(rs: seq<Record>, m: Tables, ttl: bool, clock: nat -> int) {
    && Unique(rs)
    && (forall r <- rs :: Visited(m, (r.kind, r.key), ttl, clock(r.kind)) && m[(r.kind, r.key)] == T.Entry(r.value, r.expire))
    && (forall k <- m :: Visited(m, k, ttl, clock(k.0)) ==> Written(rs, k))
  }

  ghost predicate Visited(m: Tables, k: (nat, Bytes), ttl: bool, now: int) {
    k in m && !T.Expired(m[k], ttl, now) && (k.0 == ARRAY ==> ttl)
  }

  ghost predicate Written(rs: seq<Record>, k: (nat, Bytes)) {
    exists r <- rs :: (r.kind, r.key) == k
  }

  lemma {:induction false} RestoreIs(m: Tables, rs: seq<Record>, now: int, k: (nat, Bytes))
    requires Unique(rs)
    ensures !Written(rs, k) ==> (k in Restore(m, rs, now) <==> k in m)
    ensures !Written(rs, k) && k in m ==> Restore(m, rs, now)[k] == m[k]
    ensures forall r <- rs :: (r.kind, r.key) == k && !Stale(r, now) ==>
      k in Restore(m, rs, now) && Restore(m, rs, now)[k] == T.Entry(r.value, r.expire)
    ensures forall r <- rs :: (r.kind, r.key) == k && Stale(r, now) && k !in m ==> k !in Restore(m, rs, now)
    decreases |rs|
  {
    if rs != [] {
      var r0, rest := rs[0], rs[1..];
      RestoreIs(Put(m, r0, now), rest, now, k);
      assert forall r <- rest :: r in rs;
      if (r0.kind, r0.key) == k {
        assert forall r <- rest :: (r.kind, r.key) != k by {
          forall r | r in rest ensures (r.kind, r.key) != k { var i :| 0 <= i < |rest| && rest[i] == r; assert rs[i + 1] == r; }
        }
        assert !Written(rest, k);
      }
      assert rs == [r0] + rest;
    }
  }

  // The file of a save.
  ghost predicate Saved(file: Bytes, m: Tables, ttl: bool, clock: nat -> int) {
    exists rs :: Saves(rs, m, ttl, clock) && file == File(rs)
  }

  // What is visited fits the fields of a record and is accepted by the loader.
  ghost predicate AllLoadable(m: Tables, ttl: bool, clock: nat -> int) {
    forall k <- m :: Visited(m, k, ttl, clock(k.0)) ==>
      var r := Record(k.0, m[k].expire, k.1, m[k].value);
      Storable(r) && Loadable(r)
  }

  // Loading what was saved gives every table back, but for the entries whose
  // time has passed, and the array if TTL was off.
  lemma {:induction false} SaveThenLoad(file: Bytes, m: Tables, ttl: bool, clock: nat -> int, now: int, k: (nat, Bytes))
    requires Saved(file, m, ttl, clock) && AllLoadable(m, ttl, clock)
    ensures LoadFile(file, now).Some?
    ensures var t := LoadFile(file, now).value;
      && (k in t <==> Visited(m, k, ttl, clock(k.0)) && !(m[k].expire > 0 && now > m[k].expire))
      && (k in t ==> t[k] == m[k])
  {
    var rs :| Saves(rs, m, ttl, clock) && file == File(rs);
    forall r | r in rs ensures Storable(r) && Loadable(r) {
      var e := m[(r.kind, r.key)];
      assert r == Record(r.kind, e.expire, r.key, e.value);
    }
    LoadsSaved(rs, now);
    AllAccepted(rs);
    RestoreIs(map[], rs, now, k);
    hide LoadFile, File, Restore, Unique;
    if Visited(m, k, ttl, clock(k.0)) {
      assert Written(rs, k);
      var r: Record :| r in rs && (r.kind, r.key) == k;
      assert m[k] == T.Entry(r.value, r.expire);
    }
  }

  // An empty key, or one too long, keeps all later records from being loaded.
  lemma {:induction false} OneBadRecordEndsTheLoad(before: seq<Record>, bad: Record, after: seq<Record>, now: int)
    requires (forall r <- before :: Storable(r) && Loadable(r)) && Storable(bad) && !Loadable(bad)
    requires forall r <- after :: Storable(r)
    ensures LoadFile(File(before + [bad] + after), now) == Some(Restore(map[], before, now))
  {
    LoadsSaved(before + [bad] + after, now);
    StopsAt(before, bad, after);
  }

  lemma {:induction false} StopsAt(before: seq<Record>, bad: Record, after: seq<Record>)
    requires (forall r <- before :: Loadable(r)) && !Loadable(bad)
    ensures Accepted(before + [bad] + after) == before
  {
    if before != [] {
      assert (before + [bad] + after)[1..] == before[1..] + [bad] + after;
      StopsAt(before[1..], bad, after);
    }
  }

  // A file is accepted if and only if it is some data followed by its checksum.
  lemma {:induction false} AcceptedWhen(f: Bytes, now: int)
    ensures LoadFile(f, now).Some? <==> exists d :: Checked(f, d)
  {
    hide Fnv.Checksum, Restore, Decode, LE, UnLE, LoadFile, Checked;
    if LoadFile(f, now).Some? { WasChecked(f, now); }
    if d :| Checked(f, d) { IsAccepted(f, d, now); }
  }

  lemma {:induction false} WasChecked(f: Bytes, now: int)
    requires LoadFile(f, now).Some?
    ensures |f| >= 8 && Checked(f, f[..|f| - 8])
  {
    hide Fnv.Checksum, Restore, Decode, LE, UnLE;
    LEOfUnLE(f[|f| - 8..]);
    assert f == f[..|f| - 8] + f[|f| - 8..];
  }

  lemma {:induction false} IsAccepted(f: Bytes, d: Bytes, now: int)
    requires Checked(f, d)
    ensures LoadFile(f, now).Some?
  {
    hide Fnv.Checksum, Restore, Decode, LE, UnLE;
    ChecksumFits(d);
    assert f[..|f| - 8] == d && f[|f| - 8..] == LE(Fnv.Checksum(d), 8);
  }

  ghost predicate Checked(f: Bytes, d: Bytes) {
    f == d + LE(Fnv.Checksum(d), 8)
  }

  lemma {:induction false} ChecksumFits(d: Bytes)
    ensures UnLE(LE(Fnv.Checksum(d), 8)) == Fnv.Checksum(d)
  {
    hide Fnv.Checksum;
    assert Pow256(2) == 65536 && Pow256(4) == 65536 * Pow256(2);
    assert Pow256(6) == 65536 * Pow256(4) && Pow256(8) == 65536 * Pow256(6);
    UnLEOfLE(Fnv.Checksum(d), 8);
  }

  // A saved file with any one byte replaced is refused.
  lemma {:induction false} OneByteIsDetected(rs: seq<Record>, i: nat, b: byte, now: int)
    requires i < |File(rs)| && b != File(rs)[i]
    ensures LoadFile(File(rs)[i := b], now) == None
  {
    var f, g, n := File(rs), File(rs)[i := b], |EncodeAll(rs)|;
    ChecksumReads(rs);
    hide File, EncodeAll, Fnv.Checksum, UnLE, LE;
    if i < n {
      assert g[..n] == f[..n][i := b] && g[n..] == f[n..];
      Fnv.DetectsOneByte(f[..n], i, b);
    } else {
      assert g[..n] == f[..n];
      assert f[n..][i - n] == f[i] && g[n..][i - n] == b;
      if UnLE(g[n..]) == UnLE(f[n..]) { UnLEInjective(g[n..], f[n..]); }
    }
  }

  // ------------------------------------------------------------------- loops

  // The buffer that a save appends to; it doubles until there is room.
  class SnapshotBuffer {
    var data: array<byte>
    var offset: nat

    ghost predicate Valid()
      reads this
    {
      0 < data.Length && offset <= data.Length
    }

    function Contents(): Bytes
      requires Valid()
      reads this, data
    {
      data[..offset]
    }

    constructor (capacity: nat)
      requires capacity > 0
      ensures Valid() && Contents() == [] && fresh(data)
    {
      data := new byte[capacity](i => 0);
      offset := 0;
    }

    method Append(s: Bytes)
      requires Valid()
      modifies this, data
      ensures Valid() && Contents() == old(Contents()) + s
      ensures data == old(data) || fresh(data)
    {
      if offset + |s| > data.Length {
        var capacity := data.Length;
        while offset + |s| > capacity
          invariant capacity >= data.Length > 0
          decreases offset + |s| - capacity
        {
          capacity := capacity * 2;
        }
        var larger := new byte[capacity](i => 0);
        forall i | 0 <= i < offset { larger[i] := data[i]; }
        data := larger;
      }
      ghost var before := data[..offset];
      forall i | 0 <= i < |s| { data[offset + i] := s[i]; }
      offset := offset + |s|;
      assert data[..offset] == before + s;
    }

    // A write callback.
    method WriteRecord(r: Record)
      requires Valid()
      modifies this, data
      ensures Valid() && Contents() == old(Contents()) + Encode(r)
      ensures data == old(data) || fresh(data)
    {
      hide LE, Valid, Contents;
      ghost var c := Contents();
      Append(LE(r.kind, 4));
      Append(LE(OfLong(r.expire), 8));
      Append(LE(|r.key|, 4));
      Append(r.key);
      Append(LE(|r.value|, 4));
      Append(r.value);
      Regroup(c, LE(r.kind, 4), LE(OfLong(r.expire), 8), LE(|r.key|, 4), r.key, LE(|r.value|, 4), r.value);
    }
  }

  lemma {:induction false} Regroup(z: Bytes, a: Bytes, b: Bytes, c: Bytes, d: Bytes, e: Bytes, f: Bytes)
    ensures (((((z + a) + b) + c) + d) + e) + f == z + (a + (b + (c + (d + (e + f)))))
  {}

  lemma {:induction false} EncodeMore(rs: seq<Record>, r: Record)
    ensures EncodeAll(rs + [r]) == EncodeAll(rs) + Encode(r)
  {
    hide Encode;
    if rs == [] {
      assert rs + [r] == [r] && [r][1..] == [];
      assert EncodeAll([r]) == Encode(r) + EncodeAll([]);
    } else {
      assert (rs + [r])[1..] == rs[1..] + [r];
      EncodeMore(rs[1..], r);
    }
  }

  // ------------------------------------------------------ visiting the tables

  // The tables that are saved; the five hash tables in the order of their kinds.
  datatype Engines = Engines(plain: A.ArrayTable, tree: R.Tree, hashes: seq<H.HashTable>, skip: S.SkipList)

  const HashKinds: seq<nat> := [3, 5, 6, 7, 8]

  ghost predicate Valid(e: Engines)
    reads *
  {
    && e.plain.Valid() && e.tree.Valid() && e.skip.Valid()
    && |e.hashes| == |HashKinds| && forall h <- e.hashes :: h.Valid()
  }

  // m and a table of one kind more.
  ghost function Joined(m: Tables, kind: nat, t: T.Table): (r: Tables)
    ensures forall k :: k in r <==> (k.0 == kind && k.1 in t) || k in m
    ensures forall k <- r :: r[k] == if k.0 == kind && k.1 in t then t[k.1] else m[k]
  {
    m + map k | k in t :: (kind, k) := t[k]
  }

  ghost function HashTables(m: Tables, ts: seq<T.Table>, i: nat): Tables
    requires i <= |ts| && i <= |HashKinds|
  {
    if i == 0 then m else Joined(HashTables(m, ts, i - 1), HashKinds[i - 1], ts[i - 1])
  }

  ghost function TableList(hashes: seq<H.HashTable>): (ts: seq<T.Table>)
    reads hashes
    ensures |ts| == |hashes| && forall i :: 0 <= i < |ts| ==> ts[i] == hashes[i].table
  {
    if hashes == [] then [] else
      assert forall h <- hashes[..|hashes| - 1] :: h in hashes;
      TableList(hashes[..|hashes| - 1]) + [hashes[|hashes| - 1].table]
  }

  ghost function TablesOf(e: Engines): Tables
    requires Valid(e)
    reads *
  {
    var ordered := Joined(Joined(map[], ARRAY, e.plain.table), RBTREE, e.tree.Contents());
    Joined(HashTables(ordered, TableList(e.hashes), |e.hashes|), SKIPLIST, e.skip.table)
  }

  function Records(kind: nat, visits: seq<T.Visit>): (rs: seq<Record>)
    ensures |rs| == |visits|
    ensures forall i :: 0 <= i < |rs| ==> rs[i] == Record(kind, visits[i].1.expire, visits[i].0, visits[i].1.value)
  {
    seq(|visits|, i requires 0 <= i < |visits| => Record(kind, visits[i].1.expire, visits[i].0, visits[i].1.value))
  }

  ghost predicate NoneOf(m: Tables, kind: nat) {
    forall k <- m :: k.0 != kind
  }

  // The calls for one table more.
  lemma {:induction false} OneKindMore(rs: seq<Record>, m: Tables, ttl: bool, clock: nat -> int, kind: nat, t: T.Table, visits: seq<T.Visit>)
    requires Saves(rs, m, ttl, clock) && NoneOf(m, kind) && T.Once(visits)
    requires if kind == ARRAY && !ttl then visits == [] else T.Covers(t, ttl, clock(kind), visits)
    ensures Saves(rs + Records(kind, visits), Joined(m, kind, t), ttl, clock)
    ensures forall other :: other != kind && NoneOf(m, other) ==> NoneOf(Joined(m, kind, t), other)
  {
    var more, m' := Records(kind, visits), Joined(m, kind, t);
    var all := rs + more;
    forall i, j | 0 <= i < j < |all| ensures (all[i].kind, all[i].key) != (all[j].kind, all[j].key) {
      if i < |rs| <= j { assert rs[i] in rs; }
    }
    forall r | r in all ensures Visited(m', (r.kind, r.key), ttl, clock(r.kind)) && m'[(r.kind, r.key)] == T.Entry(r.value, r.expire) {
      if r !in rs { var i :| 0 <= i < |more| && more[i] == r; }
    }
    forall k | k in m' && Visited(m', k, ttl, clock(k.0)) ensures Written(all, k) {
      if k in m {
        assert Written(rs, k);
        var r :| r in rs && (r.kind, r.key) == k;
        assert r in all;
      } else {
        var i :| 0 <= i < |visits| && visits[i].0 == k.1;
        assert more[i] in all;
      }
    }
  }

  // The tables in the order in which a save visits them.
  method VisitAll(e: Engines, ttl: bool, clock: nat -> int) returns (rs: seq<Record>)
    requires Valid(e)
    ensures Saves(rs, TablesOf(e), ttl, clock)
  {
    hide Saves, T.Once, T.Covers, Joined, HashTables, NoneOf;
    ghost var m: Tables;
    rs, m := VisitFirst(e.plain, e.tree, ttl, clock);
    rs := VisitHashes(e.hashes, rs, m, ttl, clock);
    OtherKinds(m, TableList(e.hashes), |e.hashes|, SKIPLIST);
    m := HashTables(m, TableList(e.hashes), |e.hashes|);
    var visits := VisitSkip(e.skip, ttl, clock(SKIPLIST));
    OneKindMore(rs, m, ttl, clock, SKIPLIST, e.skip.table, visits);
    rs := rs + Records(SKIPLIST, visits);
  }

  method VisitFirst(plain: A.ArrayTable, tree: R.Tree, ttl: bool, clock: nat -> int) returns (rs: seq<Record>, ghost m: Tables)
    requires plain.Valid() && tree.Valid()
    ensures m == Joined(Joined(map[], ARRAY, plain.table), RBTREE, tree.Contents()) && Saves(rs, m, ttl, clock)
    ensures forall kind :: kind !in {ARRAY, RBTREE} ==> NoneOf(m, kind)
  {
    hide Saves, T.Once, T.Covers, Joined, NoneOf;
    NothingSaved(ttl, clock);
    m := map[];
    var visits := VisitArray(plain, ttl, clock(ARRAY));
    OneKindMore([], m, ttl, clock, ARRAY, plain.table, visits);
    rs := [] + Records(ARRAY, visits);
    m := Joined(m, ARRAY, plain.table);
    visits := VisitTree(tree, ttl, clock(RBTREE));
    OneKindMore(rs, m, ttl, clock, RBTREE, tree.Contents(), visits);
    rs := rs + Records(RBTREE, visits);
    m := Joined(m, RBTREE, tree.Contents());
  }

  lemma {:induction false} NothingSaved(ttl: bool, clock: nat -> int)
    ensures Saves([], map[], ttl, clock) && forall kind :: NoneOf(map[], kind)
  {}

  // An empty table is left out.
  method VisitArray(plain: A.ArrayTable, ttl: bool, now: int) returns (visits: seq<T.Visit>)
    requires plain.Valid()
    ensures T.Once(visits) && (if ttl then T.Covers(plain.table, ttl, now, visits) else visits == [])
  {
    visits := [];
    if plain.total > 0 {
      visits := plain.ForEach(ttl, now);
    }
  }

  method VisitTree(tree: R.Tree, ttl: bool, now: int) returns (visits: seq<T.Visit>)
    requires tree.Valid()
    ensures T.Once(visits) && T.Covers(tree.Contents(), ttl, now, visits)
  {
    visits := [];
    if tree.root != tree.nil {
      visits := tree.ForEach(ttl, now);
      T.ListedOnce(tree.Contents(), ttl, now, visits);
    }
  }

  method VisitHash(hash: H.HashTable, ttl: bool, now: int) returns (visits: seq<T.Visit>)
    requires hash.Valid()
    ensures T.Once(visits) && T.Covers(hash.table, ttl, now, visits)
  {
    visits := [];
    if hash.count > 0 {
      visits := hash.ForEach(ttl, now);
    }
  }

  method VisitSkip(skip: S.SkipList, ttl: bool, now: int) returns (visits: seq<T.Visit>)
    requires skip.Valid()
    ensures T.Once(visits) && T.Covers(skip.table, ttl, now, visits)
  {
    visits := [];
    if skip.count > 0 {
      visits := skip.ForEach(ttl, now);
      T.ListedOnce(skip.table, ttl, now, visits);
    }
  }

  method VisitHashes(hashes: seq<H.HashTable>, rs0: seq<Record>, ghost m: Tables, ttl: bool, clock: nat -> int)
    returns (rs: seq<Record>)
    requires |hashes| == |HashKinds| && forall h <- hashes :: h.Valid()
    requires Saves(rs0, m, ttl, clock) && forall j :: 0 <= j < |HashKinds| ==> NoneOf(m, HashKinds[j])
    ensures Saves(rs, HashTables(m, TableList(hashes), |hashes|), ttl, clock)
  {
    hide *;
    NoHashYet(m, TableList(hashes));
    ghost var ts := TableList(hashes);
    rs := rs0;
    var i := 0;
    while i < |hashes|
      invariant 0 <= i <= |hashes| && Saves(rs, HashTables(m, ts, i), ttl, clock)
    {
      assert hashes[i] in hashes;
      var visits := VisitHash(hashes[i], ttl, clock(HashKinds[i]));
      OneHashMore(rs, m, ttl, clock, ts, i, visits);
      rs := rs + Records(HashKinds[i], visits);
      i := i + 1;
    }
  }

  lemma {:induction false} NoHashYet(m: Tables, ts: seq<T.Table>)
    ensures HashTables(m, ts, 0) == m
  {}

  lemma {:induction false} OtherKinds(m: Tables, ts: seq<T.Table>, i: nat, kind: nat)
    requires i <= |ts| && i <= |HashKinds| && NoneOf(m, kind) && kind !in HashKinds[..i]
    ensures NoneOf(HashTables(m, ts, i), kind)
  {
    if i > 0 {
      assert HashKinds[i - 1] in HashKinds[..i] && HashKinds[..i - 1] == HashKinds[..i][..i - 1];
      OtherKinds(m, ts, i - 1, kind);
    }
  }

  lemma {:induction false} OneHashMore(rs: seq<Record>, m: Tables, ttl: bool, clock: nat -> int, ts: seq<T.Table>, i: nat,
                                       visits: seq<T.Visit>)
    requires i < |ts| && i < |HashKinds| && Saves(rs, HashTables(m, ts, i), ttl, clock) && NoneOf(m, HashKinds[i])
    requires T.Once(visits) && T.Covers(ts[i], ttl, clock(HashKinds[i]), visits)
    ensures Saves(rs + Records(HashKinds[i], visits), HashTables(m, ts, i + 1), ttl, clock)
  {
    hide Saves, T.Once, T.Covers, NoneOf;
    assert HashKinds[i] !in HashKinds[..i];
    OtherKinds(m, ts, i, HashKinds[i]);
    OneKindMore(rs, HashTables(m, ts, i), ttl, clock, HashKinds[i], ts[i], visits);
  }

  // The file that a save leaves.
  method Save(e: Engines, ttl: bool, clock: nat -> int) returns (file: Bytes)
    requires Valid(e)
    ensures Saved(file, TablesOf(e), ttl, clock)
  {
    var rs := VisitAll(e, ttl, clock);
    ghost var m := TablesOf(e);
    file := WriteFile(rs);
    hide Saves, File;
    assert Saves(rs, m, ttl, clock) && file == File(rs);
  }

  method WriteFile(rs: seq<Record>) returns (file: Bytes)
    ensures file == File(rs)
  {
    hide EncodeAll, LE, Fnv.Checksum;
    var buf := new SnapshotBuffer(4 * 1024 * 1024);
    WriteAll(buf, rs);
    var data := buf.Contents();
    var crc := Fnv.Crc64(data);
    buf.Append(LE(crc, 8));
    file := buf.Contents();
  }

  method WriteAll(buf: SnapshotBuffer, rs: seq<Record>)
    requires buf.Valid() && buf.Contents() == []
    modifies buf, buf.data
    ensures buf.Valid() && buf.Contents() == EncodeAll(rs)
    ensures buf.data == old(buf.data) || fresh(buf.data)
  {
    hide *;
    Ends(rs);
    var i := 0;
    while i < |rs|
      invariant 0 <= i <= |rs| && buf.Valid() && (buf.data == old(buf.data) || fresh(buf.data))
      invariant buf.Contents() == EncodeAll(rs[..i])
    {
      Prefix(rs, i);
      buf.WriteRecord(rs[i]);
      i := i + 1;
    }
  }

  lemma {:induction false} Ends(rs: seq<Record>)
    ensures EncodeAll(rs[..0]) == [] && rs[..|rs|] == rs
  {}

  lemma {:induction false} Prefix(rs: seq<Record>, i: nat)
    requires i < |rs|
    ensures EncodeAll(rs[..i + 1]) == EncodeAll(rs[..i]) + Encode(rs[i])
  {
    assert rs[..i + 1] == rs[..i] + [rs[i]];
    EncodeMore(rs[..i], rs[i]);
  }

  // One pass of the load loop; the cursor never passes the limit.
  method ReadRecord(d: Bytes, p0: nat) returns (s: Step)
    requires p0 + 4 <= |d|
    ensures s == RecordAt(d, p0)
  {
    var p, limit := p0, |d|;
    var kind := Int(d[p..p + 4]);
    p := p + 4;
    if kind < 1 || kind > 8 { return Stop; }
    if p + 8 > limit { return Stop; }
    var expire := Long(d[p..p + 8]);
    p := p + 8;
    if p + 4 > limit { return Stop; }
    var keyLen := Int(d[p..p + 4]);
    p := p + 4;
    if keyLen <= 0 || keyLen > MAX_KEY { return Stop; }
    if p + keyLen > limit { return Stop; }
    var key := d[p..p + keyLen];
    p := p + keyLen;
    if p + 4 > limit { return Stop; }
    var valLen := Int(d[p..p + 4]);
    p := p + 4;
    if valLen < 0 || valLen > MAX_VALUE { return Stop; }
    if p + valLen > limit { return Stop; }
    var value := d[p..p + valLen];
    p := p + valLen;
    return Next(Record(kind, expire, key, value), p);
  }

  method Load(file: Bytes, now: int) returns (m: Option<Tables>)
    ensures m == LoadFile(file, now)
  {
    if |file| < 8 { return None; }
    var limit := |file| - 8;
    var d := file[..limit];
    var crc := Fnv.Crc64(d);
    if crc != UnLE(file[limit..]) { return None; }
    var tables := LoadRecords(d, now);
    return Some(tables);
  }

  method LoadRecords(d: Bytes, now: int) returns (tables: Tables)
    ensures tables == Restore(map[], Decode(d, 0), now)
  {
    hide RecordAt;
    tables := map[];
    var p: nat := 0;
    NoRecordNearEnd(d);
    while p + 4 <= |d|
      invariant p <= |d| && Restore(tables, Decode(d, p), now) == Restore(map[], Decode(d, 0), now)
      decreases |d| - p
    {
      var s := ReadRecord(d, p);
      if s == Stop { return; }
      p := s.next;
      var r := s.record;
      if r.expire > 0 && now > r.expire { continue; }
      tables := tables[(r.kind, r.key) := T.Entry(r.value, r.expire)];
    }
  }

  lemma {:induction false} NoRecordNearEnd(d: Bytes)
    ensures forall p: nat :: p + 4 > |d| ==> RecordAt(d, p) == Stop
  {}
}
