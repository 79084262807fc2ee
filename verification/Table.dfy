// What every storage engine is for: a map from keys to values with an expiry
// time, where 0 means never. The red-black tree, the skip list and the hash
// table are each proved to answer exactly like this.
module Table {
  import opened KvData

  datatype Entry = Entry(value: Bytes, expire: int)

  type Table = map<Bytes, Entry>

  predicate Expired(e: Entry, ttl: bool, now: int) {
    ttl && e.expire > 0 && now > e.expire
  }

  function Set(m: Table, k: Bytes, v: Bytes, expire: int): Table {
    m[k := Entry(v, expire)]
  }

  // A lookup that meets an expired entry removes it.
  function Get(m: Table, k: Bytes, ttl: bool, now: int): Option<Bytes> {
    if k in m && !Expired(m[k], ttl, now) then Some(m[k].value) else None
  }

  function AfterGet(m: Table, k: Bytes, ttl: bool, now: int): Table {
    if k in m && Expired(m[k], ttl, now) then m - {k} else m
  }

  // Only an entry that still carries the deadline it was queued with goes.
  predicate Due(m: Table, k: Bytes, expected: int) {
    k in m && m[k].expire == expected
  }

  function AfterTimer(m: Table, k: Bytes, expected: int): Table {
    if Due(m, k, expected) then m - {k} else m
  }

  // A call of a traversal's callback: the key, and the entry that it stands in.
  type Visit = (Bytes, Entry)

  // A traversal makes one for each entry that has not expired ...
  ghost predicate Covers(m: Table, ttl: bool, now: int, s: seq<Visit>) {
    && (forall i :: 0 <= i < |s| ==> s[i].0 in m && m[s[i].0] == s[i].1 && !Expired(s[i].1, ttl, now))
    && (forall k <- m :: !Expired(m[k], ttl, now) ==> exists i :: 0 <= i < |s| && s[i].0 == k)
  }

  // ... and no two for one key,
  ghost predicate Once(s: seq<Visit>) {
    forall i, j :: 0 <= i < j < |s| ==> s[i].0 != s[j].0
  }

  // or, where the engine is ordered, makes them in key order.
  ghost predicate Listing(m: Table, ttl: bool, now: int, s: seq<Visit>) {
    (forall i, j :: 0 <= i < j < |s| ==> Compare(s[i].0, s[j].0) < 0) && Covers(m, ttl, now, s)
  }

  lemma {:induction false} ListedOnce(m: Table, ttl: bool, now: int, s: seq<Visit>)
    requires Listing(m, ttl, now, s)
    ensures Once(s) && Covers(m, ttl, now, s)
  {
    forall i, j | 0 <= i < j < |s| ensures s[i].0 != s[j].0 { CompareSymmetric(s[i].0, s[j].0); }
  }

  // ------------------------------------------------------------ whole runs

  datatype Op = Put(k: Bytes, v: Bytes, expire: int) | Look(k: Bytes) | Drop(k: Bytes)

  // An operation and the clock reading it meets.
  datatype Event = Event(op: Op, now: int)

  // The table after a run, with expired entries deleted when they are met.
  function Lazily(ttl: bool, run: seq<Event>): Table {
    if run == [] then map[]
    else
      var n := |run| - 1;
      var m, e := Lazily(ttl, run[..n]), run[n];
      match e.op
      case Put(k, v, expire) => Set(m, k, v, expire)
      case Look(k) => AfterGet(m, k, ttl, e.now)
      case Drop(k) => m - {k}
  }

  // The same without deleting them.
  function Plainly(run: seq<Event>): Table {
    if run == [] then map[]
    else
      var n := |run| - 1;
      var m := Plainly(run[..n]);
      match run[n].op
      case Put(k, v, expire) => Set(m, k, v, expire)
      case Look(k) => m
      case Drop(k) => m - {k}
  }

  ghost predicate ClockRuns(run: seq<Event>) {
    forall i, j :: 0 <= i < j < |run| ==> run[i].now <= run[j].now
  }

  // What the one has and the other has not is expired.
  ghost predicate Differ(lazy: Table, plain: Table, ttl: bool, now: int) {
    && (forall k <- lazy :: k in plain && plain[k] == lazy[k])
    && (forall k <- plain :: k !in lazy ==> Expired(plain[k], ttl, now))
  }

  lemma {:induction false} LazyRun(ttl: bool, run: seq<Event>, now: int)
    requires ClockRuns(run) && (run != [] ==> run[|run| - 1].now <= now)
    ensures Differ(Lazily(ttl, run), Plainly(run), ttl, now)
  {
    if run != [] {
      var n := |run| - 1;
      LazyRun(ttl, run[..n], run[n].now);
    }
  }

  // Over any run, under a clock that does not go back, deleting expired entries
  // when they are met changes no answer.
  lemma {:induction false} LazyDeletionIsInvisible(ttl: bool, run: seq<Event>, k: Bytes, now: int)
    requires ClockRuns(run) && (run != [] ==> run[|run| - 1].now <= now)
    ensures Get(Lazily(ttl, run), k, ttl, now) == Get(Plainly(run), k, ttl, now)
  {
    LazyRun(ttl, run, now);
  }

  // Nothing after position i of the run writes or deletes the key.
  ghost predicate LastWrite(run: seq<Event>, i: nat, k: Bytes) {
    i < |run| && !run[i].op.Look? && run[i].op.k == k &&
    forall j :: i < j < |run| && run[j].op.k == k ==> run[j].op.Look?
  }

  // A lookup after position i has met the key at a later time than x.
  ghost predicate Met(run: seq<Event>, i: nat, k: Bytes, x: int) {
    exists j :: i < j < |run| && run[j].op == Look(k) && run[j].now > x
  }

  // Over any run the last write decides: a key that was written last with value v
  // and expiry time x has that entry, unless TTL is on, x is a time and a lookup
  // came after it; a key that was deleted last, or never written, has none.
  lemma {:induction false} LastWriteDecides(ttl: bool, run: seq<Event>, i: nat, k: Bytes)
    requires LastWrite(run, i, k)
    ensures match run[i].op
      case Put(_, v, x) =>
        && (k in Lazily(ttl, run) <==> !(ttl && 0 < x && Met(run, i, k, x)))
        && (k in Lazily(ttl, run) ==> Lazily(ttl, run)[k] == Entry(v, x))
        && k in Plainly(run) && Plainly(run)[k] == Entry(v, x)
      case _ => k !in Lazily(ttl, run) && k !in Plainly(run)
  {
    var n := |run| - 1;
    if i < n {
      assert LastWrite(run[..n], i, k);
      LastWriteDecides(ttl, run[..n], i, k);
      if run[i].op.Put? {
        var x := run[i].op.expire;
        if Met(run[..n], i, k, x) {
          var j :| i < j < n && run[..n][j].op == Look(k) && run[..n][j].now > x;
          assert run[j] == run[..n][j];
        }
        assert forall j :: i < j < n ==> run[j] == run[..n][j];
      }
    } else if run[n].op.Put? {
      assert !Met(run, i, k, run[i].op.expire);
    }
  }

  lemma {:induction false} NeverWritten(ttl: bool, run: seq<Event>, k: Bytes)
    requires forall j :: 0 <= j < |run| && run[j].op.k == k ==> run[j].op.Look?
    ensures k !in Lazily(ttl, run) && k !in Plainly(run)
  {
    if run != [] {
      var n := |run| - 1;
      forall j | 0 <= j < n && run[..n][j].op.k == k ensures run[..n][j].op.Look? { assert run[j] == run[..n][j]; }
      NeverWritten(ttl, run[..n], k);
    }
  }

  // What a client sees: the value that was written last, for ever if it has no
  // expiry time or TTL is off, otherwise exactly until that time has passed.
  lemma {:induction false} LastPutAnswers(ttl: bool, run: seq<Event>, i: nat, k: Bytes, now: int)
    requires LastWrite(run, i, k) && ClockRuns(run) && run[|run| - 1].now <= now
    ensures Get(Lazily(ttl, run), k, ttl, now) ==
      match run[i].op
      case Put(_, v, x) => if ttl && 0 < x < now then None else Some(v)
      case _ => None
  {
    LastWriteDecides(ttl, run, i, k);
  }

  // There is only one listing of a table, so all engines list the same.
  lemma {:induction false} ListingIsUnique(m: Table, ttl: bool, now: int, s: seq<Visit>, t: seq<Visit>)
    requires Listing(m, ttl, now, s) && Listing(m, ttl, now, t)
    ensures s == t
  {
    SamePrefix(m, ttl, now, s, t, |s|);
    SamePrefix(m, ttl, now, t, s, |t|);
  }

  lemma {:induction false} SamePrefix(m: Table, ttl: bool, now: int, s: seq<Visit>, t: seq<Visit>, n: nat)
    requires Listing(m, ttl, now, s) && Listing(m, ttl, now, t) && n <= |s|
    ensures n <= |t| && s[..n] == t[..n]
  {
    hide Listing;
    if n > 0 {
      SamePrefix(m, ttl, now, s, t, n - 1);
      SameNext(m, ttl, now, s, t, n - 1);
      assert s[..n] == s[..n - 1] + [s[n - 1]] && t[..n] == t[..n - 1] + [t[n - 1]];
    }
  }

  lemma {:induction false} SameNext(m: Table, ttl: bool, now: int, s: seq<Visit>, t: seq<Visit>, n: nat)
    requires Listing(m, ttl, now, s) && Listing(m, ttl, now, t) && n < |s| && n <= |t| && s[..n] == t[..n]
    ensures n < |t| && s[n] == t[n]
  {
    var j := Found(m, ttl, now, s, t, n);
    NotBefore(s, t, n, j);
    var i := Found(m, ttl, now, t, s, n);
    NotBefore(t, s, n, i);
    CompareSymmetric(t[n].0, s[n].0);
    assert j == n;
    assert m[s[n].0] == s[n].1 == t[n].1;
  }

  lemma {:induction false} Found(m: Table, ttl: bool, now: int, s: seq<Visit>, t: seq<Visit>, n: nat)
    returns (j: nat)
    requires Listing(m, ttl, now, s) && Listing(m, ttl, now, t) && n < |s|
    ensures j < |t| && t[j].0 == s[n].0
  {
    assert s[n].0 in m && m[s[n].0] == s[n].1;
    j :| 0 <= j < |t| && t[j].0 == s[n].0;
  }

  lemma {:induction false} NotBefore(s: seq<Visit>, t: seq<Visit>, n: nat, j: nat)
    requires forall i, j :: 0 <= i < j < |s| ==> Compare(s[i].0, s[j].0) < 0
    requires n < |s| && n <= |t| && s[..n] == t[..n] && j < |t| && t[j].0 == s[n].0
    ensures j >= n
  {
    if j < n {
      assert s[j] == s[..n][j] == t[..n][j] == t[j];
      CompareSymmetric(s[j].0, s[n].0);
      assert false;
    }
  }
}
