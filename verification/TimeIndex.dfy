// The time index on top of a skip list: kvs_zset_add, kvs_zset_recent and
// kvs_zset_range of kvs_skiptable.c.
module TimeIndex {
  import opened KvData
  import opened SkipShape
  import opened SkipList
  import opened TimeKey
  import T = Table

  const KEY_BUFFER: nat := 128

  // The list also holds the ordinary keys of other commands. Every key of 16
  // bytes or more is one of the time index:
  ghost predicate Indexed(m: T.Table) {
    forall k <- m :: |k| > DIGITS ==> IsTimeKey(k)
  }

  ghost predicate OnlyIndexed(m: T.Table) {
    forall k <- m :: IsTimeKey(k)
  }

  // What the scan takes: a key of 16 bytes or more whose first 15 lie, byte by
  // byte, between those of the bounds.
  predicate Between(k: Bytes, lo: int, hi: int) {
    |k| > DIGITS && MemCmp(k, Stamp(lo), DIGITS) >= 0 && MemCmp(k, Stamp(hi), DIGITS) <= 0
  }

  // What is asked for.
  predicate InRange(k: Bytes, lo: int, hi: int) {
    IsTimeKey(k) && lo <= TimeOf(k) <= hi
  }

  // The keys that the scan takes, looking at every node from a on.
  function RangeKeys(c: Chain, a: nat, lo: int, hi: int): (r: seq<Bytes>)
    requires a <= |c|
    decreases |c| - a
  {
    if a == |c| then []
    else if Between(c[a].key, lo, hi) then [c[a].key] + RangeKeys(c, a + 1, lo, hi)
    else RangeKeys(c, a + 1, lo, hi)
  }

  function Ids(keys: seq<Bytes>): (ids: seq<Bytes>)
    ensures |ids| == |keys|
    ensures forall i :: 0 <= i < |keys| ==> ids[i] == IdOf(keys[i])
  {
    seq(|keys|, i requires 0 <= i < |keys| => IdOf(keys[i]))
  }

  // Nothing behind a key that is past the upper bound is in the interval.
  lemma {:induction false} NothingLater(c: Chain, a: nat, b: nat, lo: int, hi: int)
    requires Sorted(c) && 1 <= a <= b <= |c| && a < |c|
    requires |c[a].key| > DIGITS && MemCmp(c[a].key, Stamp(hi), DIGITS) > 0
    ensures RangeKeys(c, b, lo, hi) == []
    decreases |c| - b
  {
    hide Stamp, MemCmp, Compare;
    if b < |c| {
      if |c[b].key| > DIGITS && a < b { PastStaysPast(c[a].key, c[b].key, Stamp(hi), DIGITS); }
      NothingLater(c, a, b + 1, lo, hi);
    }
  }

  // By time, then by id.
  predicate Earlier(j: Bytes, k: Bytes) {
    IsTimeKey(j) && IsTimeKey(k) &&
    (TimeOf(j) < TimeOf(k) || (TimeOf(j) == TimeOf(k) && Compare(IdOf(j), IdOf(k)) < 0))
  }

  lemma {:induction false} LaterKey(j: Bytes, k: Bytes)
    requires IsTimeKey(j) && IsTimeKey(k) && Compare(j, k) < 0
    ensures Earlier(j, k)
  {
    TimeKeyIsKey(j);
    TimeKeyIsKey(k);
    KeyOrder(TimeOf(j), IdOf(j), TimeOf(k), IdOf(k));
  }

  // The answer to a range query: the keys that the scan takes, each once, in
  // key order.
  ghost predicate RangeAnswer(m: T.Table, lo: int, hi: int, keys: seq<Bytes>) {
    Increasing(keys) && forall k :: k in keys <==> k in m && Between(k, lo, hi)
  }

  lemma {:induction false} RangeKeysAre(c: Chain, a: nat, lo: int, hi: int, k: Bytes)
    requires a <= |c|
    ensures k in RangeKeys(c, a, lo, hi) <==> Between(k, lo, hi) && exists b :: a <= b < |c| && c[b].key == k
    decreases |c| - a
  {
    hide Between;
    if a < |c| {
      RangeKeysAre(c, a + 1, lo, hi, k);
      if c[a].key == k { assert exists b :: a <= b < |c| && c[b].key == k; }
    }
  }

  lemma {:induction false} RangeKeysSorted(c: Chain, a: nat, lo: int, hi: int)
    requires Sorted(c) && 1 <= a <= |c|
    ensures Increasing(RangeKeys(c, a, lo, hi))
    decreases |c| - a
  {
    hide Between;
    if a < |c| {
      RangeKeysSorted(c, a + 1, lo, hi);
      var r, rest := RangeKeys(c, a, lo, hi), RangeKeys(c, a + 1, lo, hi);
      if Between(c[a].key, lo, hi) {
        forall k | k in rest ensures Compare(c[a].key, k) < 0 {
          RangeKeysAre(c, a + 1, lo, hi, k);
        }
        IncreasingFrom(c[a].key, rest);
      }
    }
  }

  ghost predicate Increasing(s: seq<Bytes>) {
    forall i, j :: 0 <= i < j < |s| ==> Compare(s[i], s[j]) < 0
  }

  lemma {:induction false} IncreasingFrom(k: Bytes, s: seq<Bytes>)
    requires Increasing(s) && forall x <- s :: Compare(k, x) < 0
    ensures Increasing([k] + s)
  {
    var t := [k] + s;
    forall i, j | 0 <= i < j < |t| ensures Compare(t[i], t[j]) < 0 {
      assert t[j] == s[j - 1] && s[j - 1] in s;
      if i > 0 { assert t[i] == s[i - 1]; }
    }
  }

  lemma {:induction false} RangeKeysAnswer(c: Chain, m: T.Table, lo: int, hi: int)
    requires c != [] && Sorted(c) && Represents(c, m)
    ensures RangeAnswer(m, lo, hi, RangeKeys(c, 1, lo, hi))
  {
    hide Between;
    var keys := RangeKeys(c, 1, lo, hi);
    RangeKeysSorted(c, 1, lo, hi);
    forall k ensures k in keys <==> k in m && Between(k, lo, hi) {
      RangeKeysAre(c, 1, lo, hi, k);
      if k in m { assert HasKey(c, k); }
    }
  }

  // Increasing time keys come by time and then by id.
  lemma {:induction false} ByTime(keys: seq<Bytes>)
    requires Increasing(keys) && forall k <- keys :: IsTimeKey(k)
    ensures forall i, j :: 0 <= i < j < |keys| ==> Earlier(keys[i], keys[j])
  {
    forall i, j | 0 <= i < j < |keys| ensures Earlier(keys[i], keys[j]) {
      LaterKey(keys[i], keys[j]);
    }
  }

  lemma {:induction false} BetweenIsInRange(k: Bytes, lo: int, hi: int)
    requires IsTimeKey(k)
    ensures Between(k, lo, hi) <==> InRange(k, Cut(lo), Cut(hi))
  {
    BoundCompares(k, lo);
    BoundCompares(k, hi);
  }

  // A key that the scan gets wrong: an ordinary one that it takes, or one of the
  // time index that a bound of more than 15 digits misplaces. Such a lower bound
  // lets in what is at or after it cut to 15 digits; such an upper bound leaves
  // out what is after it cut to 15 digits.
  predicate Misjudged(k: Bytes, lo: int, hi: int) {
    if !IsTimeKey(k) then Between(k, lo, hi)
    else if lo >= Pow10(DIGITS) then Cut(lo) <= TimeOf(k) <= Cut(hi)
    else hi >= Pow10(DIGITS) && TimeOf(k) >= lo && TimeOf(k) > Cut(hi)
  }

  // The answer is what was asked for exactly if no key of the list is one of
  // those.
  lemma {:induction false} RangeIsAsked(m: T.Table, lo: int, hi: int, keys: seq<Bytes>)
    requires lo <= hi && RangeAnswer(m, lo, hi, keys)
    ensures (forall k :: k in keys <==> k in m && InRange(k, lo, hi)) <==> forall k <- m :: !Misjudged(k, lo, hi)
    ensures (forall k <- m :: !Misjudged(k, lo, hi)) ==>
      forall i, j :: 0 <= i < j < |keys| ==> Earlier(keys[i], keys[j])
  {
    hide Between, InRange, Misjudged, Earlier;
    forall k ensures (Between(k, lo, hi) <==> InRange(k, lo, hi)) <==> !Misjudged(k, lo, hi) {
      JudgedRight(k, lo, hi);
    }
    if forall k <- m :: !Misjudged(k, lo, hi) {
      forall k <- keys ensures IsTimeKey(k) { InRangeIsTimeKey(k, lo, hi); }
      ByTime(keys);
    }
  }

  lemma {:induction false} InRangeIsTimeKey(k: Bytes, lo: int, hi: int)
    ensures InRange(k, lo, hi) ==> IsTimeKey(k)
  {}

  lemma {:induction false} JudgedRight(k: Bytes, lo: int, hi: int)
    requires lo <= hi
    ensures (Between(k, lo, hi) <==> InRange(k, lo, hi)) <==> !Misjudged(k, lo, hi)
  {
    hide Between, Pow10;
    if IsTimeKey(k) {
      TimeKeyIsKey(k);
      BetweenIsInRange(k, lo, hi);
    }
  }

  // With bounds below 10^15 and no ordinary key of 16 bytes or more none is.
  lemma {:induction false} RangeOfShortBounds(m: T.Table, lo: int, hi: int, k: Bytes)
    requires Indexed(m) && lo <= hi < Pow10(DIGITS) && k in m
    ensures !Misjudged(k, lo, hi)
  {}

  // Adds an id at a time; fails on an empty id or one that is too long.
  method Add(skip: SkipList, ts: int, id: Bytes, newLevel: nat) returns (r: int)
    requires skip.Valid() && newLevel <= MAX_LEVEL
    modifies skip, skip.chain`forward, skip.chain`value, skip.chain`expire
    ensures skip.Valid()
    ensures r == if id == [] || |Stamp(ts)| + 1 + |id| >= 128 then -1 else 0
    ensures skip.table == if r == 0 then T.Set(old(skip.table), Key(ts, id), [], 0) else old(skip.table)
    ensures r == 0 ==> (Indexed(skip.table) <==> Indexed(old(skip.table)) && 0 <= ts < Pow10(DIGITS))
    ensures r == 0 ==> (OnlyIndexed(skip.table) <==> OnlyIndexed(old(skip.table)) && 0 <= ts < Pow10(DIGITS))
  {
    ReadsBackWhen(ts, id);
    ghost var k, before := Key(ts, id), skip.table;
    if id == [] { return -1; }
    var stamp := Stamp(ts) + [COLON];
    if |stamp| + |id| >= KEY_BUFFER { return -1; }
    skip.Set(stamp + id, [], 0, newLevel);
    OneKeyMore(before, k);
    return 0;
  }

  lemma {:induction false} OneKeyMore(m: T.Table, k: Bytes)
    requires |k| > DIGITS
    ensures Indexed(T.Set(m, k, [], 0)) <==> Indexed(m) && IsTimeKey(k)
    ensures OnlyIndexed(T.Set(m, k, [], 0)) <==> OnlyIndexed(m) && IsTimeKey(k)
  {
    hide IsTimeKey;
    var m' := T.Set(m, k, [], 0);
    assert k in m';
    assert forall j <- m :: j in m';
  }

  // One node of a range scan: 0 to pass over it, 1 to take it, 2 to stop.
  function Judge(k: Bytes, lo: int, hi: int): (r: nat)
    requires |k| > DIGITS
  {
    if StrNCmp(k, Stamp(lo), DIGITS) < 0 then 0
    else if StrNCmp(k, Stamp(hi), DIGITS) > 0 then 2
    else 1
  }

  lemma {:induction false} JudgeIsRight(k: Bytes, lo: int, hi: int)
    requires |k| > DIGITS
    ensures Judge(k, lo, hi) == 1 <==> Between(k, lo, hi)
    ensures Judge(k, lo, hi) == 2 ==> MemCmp(k, Stamp(hi), DIGITS) > 0
    ensures Judge(k, lo, hi) <= 2
  {
    hide Stamp, MemCmp, StrNCmp;
    BoundIsBytes(k, lo);
    BoundIsBytes(k, hi);
  }

  // The ids of the keys from lo to hi, in the order of the list; None for an
  // empty interval.
  method Range(skip: SkipList, lo: int, hi: int) returns (ids: Option<seq<Bytes>>, ghost keys: seq<Bytes>)
    requires skip.Valid()
    ensures lo > hi <==> ids == None
    ensures lo <= hi ==> RangeAnswer(skip.table, lo, hi, keys) && ids == Some(Ids(keys))
  {
    ghost var c := skip.chain;
    keys := RangeKeys(c, 1, lo, hi);
    if lo > hi { return None, []; }
    hide Linked, Sorted, Distinct, TopLevel, Represents, RangeAnswer, RangeKeys, Pow10, Ids;
    RangeKeysAnswer(c, skip.table, lo, hi);
    var count := Count(skip, lo, hi);
    if count == 0 {
      assert keys == [] && Ids(keys) == [];
      return Some([]), keys;
    }
    var got := Collect(skip, lo, hi, count);
    return Some(got), keys;
  }

  // One node of either pass: 0 to pass over it, 1 to take it, 2 to stop.
  method Visit(node: SkipNode, ghost c: Chain, ghost a: nat, lo: int, hi: int) returns (j: nat)
    requires Sorted(c) && 1 <= a < |c| && c[a] == node
    ensures j == 0 ==> RangeKeys(c, a, lo, hi) == RangeKeys(c, a + 1, lo, hi)
    ensures j == 1 ==> |node.key| > DIGITS && RangeKeys(c, a, lo, hi) == [node.key] + RangeKeys(c, a + 1, lo, hi)
    ensures j == 2 ==> RangeKeys(c, a, lo, hi) == []
    ensures j <= 2
  {
    hide Sorted, Stamp, Judge, MemCmp, IsTimeKey;
    if |node.key| <= DIGITS { return 0; }
    JudgeIsRight(node.key, lo, hi);
    j := Judge(node.key, lo, hi);
    if j == 2 { NothingLater(c, a, a, lo, hi); }
  }

  // First pass.
  method Count(skip: SkipList, lo: int, hi: int) returns (count: nat)
    requires skip.Valid()
    ensures count == |RangeKeys(skip.chain, 1, lo, hi)|
  {
    hide Linked, Sorted, Distinct, TopLevel, Represents, RangeKeys;
    ghost var c := skip.chain;
    RangeKeysEnd(c, lo, hi);
    count := 0;
    ghost var a: nat := 1;
    NextNode(c, 0);
    var node := skip.header.forward[0];
    while node != null
      invariant 1 <= a <= |c| && node == (if a < |c| then c[a] else null)
      invariant count + |RangeKeys(c, a, lo, hi)| == |RangeKeys(c, 1, lo, hi)|
      decreases |c| - a
    {
      NextNode(c, a);
      var j := Visit(node, c, a, lo, hi);
      if j == 2 { break; }
      if j == 1 { count := count + 1; }
      node, a := node.forward[0], a + 1;
    }
  }

  // Second pass.
  method Collect(skip: SkipList, lo: int, hi: int, count: nat) returns (ids: seq<Bytes>)
    requires skip.Valid()
    requires count == |RangeKeys(skip.chain, 1, lo, hi)|
    ensures ids == Ids(RangeKeys(skip.chain, 1, lo, hi))
  {
    hide Linked, Sorted, Distinct, TopLevel, Represents, RangeKeys, Ids, IsTimeKey, Partly;
    ghost var c := skip.chain;
    ghost var all := RangeKeys(c, 1, lo, hi);
    PartlyStart(all);
    ids := [];
    ghost var a: nat := 1;
    NextNode(c, 0);
    var node := skip.header.forward[0];
    while node != null && |ids| < count
      invariant 1 <= a <= |c| && node == (if a < |c| then c[a] else null)
      invariant Partly(ids, all, RangeKeys(c, a, lo, hi))
      decreases |c| - a
    {
      NextNode(c, a);
      var j := Visit(node, c, a, lo, hi);
      if j == 2 { break; }
      if j == 1 {
        PartlyMore(ids, all, node.key, RangeKeys(c, a + 1, lo, hi));
        ids := ids + [IdOf(node.key)];
      }
      node, a := node.forward[0], a + 1;
    }
    RangeKeysEnd(c, lo, hi);
    PartlyDone(ids, all, RangeKeys(c, a, lo, hi));
  }

  // ids are those of the keys in all before the ones in rest.
  ghost predicate Partly(ids: seq<Bytes>, all: seq<Bytes>, rest: seq<Bytes>) {
    && |ids| <= |all| && rest == all[|ids|..]
    && forall i :: 0 <= i < |ids| ==> ids[i] == IdOf(all[i])
  }

  lemma {:induction false} PartlyStart(all: seq<Bytes>)
    ensures Partly([], all, all)
  {}

  lemma {:induction false} PartlyMore(ids: seq<Bytes>, all: seq<Bytes>, k: Bytes, rest: seq<Bytes>)
    requires Partly(ids, all, [k] + rest)
    ensures Partly(ids + [IdOf(k)], all, rest)
  {
    assert all[|ids|] == all[|ids|..][0] == k;
    assert all[|ids| + 1..] == all[|ids|..][1..];
  }

  lemma {:induction false} PartlyDone(ids: seq<Bytes>, all: seq<Bytes>, rest: seq<Bytes>)
    requires Partly(ids, all, rest)
    ensures rest == [] || |ids| >= |all| ==> ids == Ids(all)
  {}

  lemma {:induction false} RangeKeysEnd(c: Chain, lo: int, hi: int)
    ensures RangeKeys(c, |c|, lo, hi) == []
  {}

  // ------------------------------------------------------- the last n entries

  function KeysFrom(c: Chain, a: nat): (keys: seq<Bytes>)
    requires a <= |c|
    ensures |keys| == |c| - a
    ensures forall i :: 0 <= i < |keys| ==> keys[i] == c[a + i].key
  {
    seq(|c| - a, i requires 0 <= i < |c| - a => c[a + i].key)
  }

  // Every key of the list, in order.
  ghost predicate AllKeys(m: T.Table, keys: seq<Bytes>) {
    Increasing(keys) && forall k :: k in keys <==> k in m
  }

  lemma {:induction false} KeysAreAll(c: Chain, m: T.Table)
    requires c != [] && Sorted(c) && Represents(c, m)
    ensures AllKeys(m, KeysFrom(c, 1))
  {
    var keys := KeysFrom(c, 1);
    forall k ensures k in keys <==> k in m {
      if k in m {
        assert HasKey(c, k);
        var a :| 1 <= a < |c| && c[a].key == k;
        assert keys[a - 1] == k;
      }
    }
  }

  // The keys of 16 bytes or more.
  function Long(keys: seq<Bytes>): (r: seq<Bytes>)
    ensures |r| <= |keys|
  {
    if keys == [] then []
    else if |keys[0]| > DIGITS then [keys[0]] + Long(keys[1..])
    else Long(keys[1..])
  }

  lemma {:induction false} LongInParts(s: seq<Bytes>, t: seq<Bytes>)
    ensures Long(s + t) == Long(s) + Long(t)
    decreases |s|
  {
    if s == [] {
      assert s + t == t;
    } else {
      assert (s + t)[1..] == s[1..] + t;
      LongInParts(s[1..], t);
    }
  }

  lemma {:induction false} LongWhen(s: seq<Bytes>)
    ensures Long(s) == s <==> forall k <- s :: |k| > DIGITS
    ensures |Long(s)| == |s| ==> Long(s) == s
    ensures Long(s) == [] <==> forall k <- s :: |k| <= DIGITS
    decreases |s|
  {
    if s != [] {
      assert s == [s[0]] + s[1..];
      LongWhen(s[1..]);
      if forall k <- s :: |k| > DIGITS { assert forall k <- s[1..] :: k in s; }
      if |s[0]| > DIGITS && Long(s) == s { assert s[1..] == Long(s)[1..] == Long(s[1..]); }
    }
  }

  function LastOf(s: seq<Bytes>, n: nat): seq<Bytes> {
    if |s| > n then s[|s| - n..] else s
  }

  // The entries of the index among the keys.
  function Entries(keys: seq<Bytes>): (r: seq<Bytes>)
    ensures |r| <= |keys|
  {
    if keys == [] then []
    else if IsTimeKey(keys[0]) then [keys[0]] + Entries(keys[1..])
    else Entries(keys[1..])
  }

  lemma {:induction false} EntriesInParts(s: seq<Bytes>, t: seq<Bytes>)
    ensures Entries(s + t) == Entries(s) + Entries(t)
    decreases |s|
  {
    hide IsTimeKey;
    if s == [] {
      assert s + t == t;
    } else {
      assert (s + t)[1..] == s[1..] + t;
      EntriesInParts(s[1..], t);
    }
  }

  lemma {:induction false} EntriesAre(s: seq<Bytes>)
    ensures forall k <- Entries(s) :: IsTimeKey(k)
    ensures Long(s) == Entries(s) <==> !(exists k <- s :: Stray(k))
    ensures |Entries(s)| == |s| <==> forall k <- s :: IsTimeKey(k)
    ensures Entries(s) == [] <==> forall k <- s :: !IsTimeKey(k)
    decreases |s|
  {
    if s != [] {
      var rest := s[1..];
      assert s == [s[0]] + rest;
      EntriesAre(rest);
      StrayIs(s[0]);
      hide IsTimeKey, Stray;
      if Stray(s[0]) {
        assert Long(s)[0] == s[0];
        assert Entries(s) == Entries(rest);
      } else if IsTimeKey(s[0]) {
        assert Long(s)[1..] == Long(rest) && Entries(s)[1..] == Entries(rest);
      }
    }
  }

  // A key that is long enough for an entry and is none.
  predicate Stray(k: Bytes) {
    |k| > DIGITS && !IsTimeKey(k)
  }

  lemma {:induction false} StrayIs(k: Bytes)
    ensures |k| > DIGITS <==> IsTimeKey(k) || Stray(k)
    ensures !(IsTimeKey(k) && Stray(k))
  {}

  function FirstOf(s: seq<Bytes>, n: nat): seq<Bytes> {
    if |s| > n then s[..|s| - n] else []
  }

  // What is given are the keys of 16 bytes or more among the last n keys of the
  // list. Those are the last n entries if and only if none of the last n keys is
  // a long one that is no entry, and either all of them are entries or no entry
  // comes before them.
  lemma {:induction false} RecentIsAsked(keys: seq<Bytes>, n: nat)
    ensures var front, last := FirstOf(keys, n), LastOf(keys, n);
      Long(last) == LastOf(Entries(keys), n) <==>
        && !(exists k <- last :: Stray(k))
        && ((forall k <- last :: IsTimeKey(k)) || (forall k <- front :: !IsTimeKey(k)))
  {
    hide IsTimeKey, Stray;
    var front, last := FirstOf(keys, n), LastOf(keys, n);
    assert keys == front + last;
    EntriesInParts(front, last);
    EntriesAre(front);
    EntriesAre(last);
    EntriesAre(keys);
    var asked := LastOf(Entries(keys), n);
    if Long(last) == asked {
      assert forall k <- asked :: k in Entries(keys);
      OnlyEntries(last);
    }
  }

  // If only entries are given there was no other long key.
  lemma {:induction false} OnlyEntries(s: seq<Bytes>)
    requires forall k <- Long(s) :: IsTimeKey(k)
    ensures Long(s) == Entries(s)
  {
    if s != [] { OnlyEntries(s[1..]); }
  }

  // The three ways to miss it, in lists that commands can make: an ordinary key
  // hides the entry before it, and if it is long it is given for an entry.
  lemma {:induction false} OrdinaryKeyHides(ts: nat, id: Bytes, z: Bytes, v: Bytes)
    requires 0 < ts < Pow10(DIGITS) && !IsTimeKey(z) && Compare(Key(ts, id), z) < 0
    ensures var k := Key(ts, id);
      && AllKeys(T.Set(T.Set(map[], k, [], 0), z, v, 0), [k, z])
      && LastOf(Entries([k, z]), 1) == [k]
      && Long(LastOf([k, z], 1)) == if |z| > DIGITS then [z] else []
  {
    var k := Key(ts, id);
    KeyRoundTrip(ts, id);
    hide IsTimeKey, Key;
    assert [k, z][1..] == [z] && [z][1..] == [] && LastOf([k, z], 1) == [z];
    assert Entries([z]) == Entries([]) == [];
    assert Long([z]) == (if |z| > DIGITS then [z] else []) by { assert Long([]) == []; }
  }

  // An id added at 10^15 ms or later comes back with a part of its timestamp and
  // the colon before it.
  lemma {:induction false} LateEntryIsMisread(ts: nat, id: Bytes)
    requires ts >= Pow10(DIGITS)
    ensures var k := Key(ts, id);
      && AllKeys(T.Set(map[], k, [], 0), [k]) && Stray(k)
      && |Ids(Long(LastOf([k], 1)))| == 1 && |Ids(Long(LastOf([k], 1)))[0]| >= |id| + 1
  {
    var k := Key(ts, id);
    LateKey(ts, id);
    hide IsTimeKey, Key;
    LongWhen([k]);
  }

  // In a list of index entries only they are the last n by time.
  lemma {:induction false} RecentOfIndex(m: T.Table, keys: seq<Bytes>, n: nat)
    requires OnlyIndexed(m) && AllKeys(m, keys)
    ensures Long(LastOf(keys, n)) == LastOf(keys, n) == LastOf(Entries(keys), n)
    ensures forall i, j :: 0 <= i < j < |keys| ==> Earlier(keys[i], keys[j])
    ensures var last := LastOf(keys, n);
      && |last| == (if n < |keys| then n else |keys|)
      && forall k <- m :: k in last || forall j <- last :: Earlier(k, j)
  {
    hide IsTimeKey, Earlier;
    forall k <- keys ensures IsTimeKey(k) && |k| > DIGITS { TimeKeyIsLong(k); }
    ByTime(keys);
    assert forall k <- LastOf(keys, n) :: k in keys;
    LongWhen(LastOf(keys, n));
    AllEntries(keys);
    forall k | k in m && k !in LastOf(keys, n) ensures forall j <- LastOf(keys, n) :: Earlier(k, j) {
      assert k in keys;
      Before(keys, n, k);
    }
  }

  lemma {:induction false} AmongLast(keys: seq<Bytes>, n: nat)
    requires |keys| > n
    ensures forall i :: |keys| - n <= i < |keys| ==> keys[i] in LastOf(keys, n)
  {
    forall i | |keys| - n <= i < |keys| ensures keys[i] in LastOf(keys, n) {
      assert LastOf(keys, n)[i - (|keys| - n)] == keys[i];
    }
  }

  lemma {:induction false} Before(keys: seq<Bytes>, n: nat, k: Bytes)
    requires (forall i, j :: 0 <= i < j < |keys| ==> Earlier(keys[i], keys[j])) && k in keys && k !in LastOf(keys, n)
    ensures forall j <- LastOf(keys, n) :: Earlier(k, j)
  {
    hide Earlier;
    var i :| 0 <= i < |keys| && keys[i] == k;
    var d := |keys| - n;
    assert d > 0;
    AmongLast(keys, n);
    forall j | j in LastOf(keys, n) ensures Earlier(k, j) {
      var a :| 0 <= a < |LastOf(keys, n)| && LastOf(keys, n)[a] == j;
      assert keys[d + a] == j;
    }
  }

  lemma {:induction false} AllEntries(s: seq<Bytes>)
    requires forall k <- s :: IsTimeKey(k)
    ensures Entries(s) == s
  {
    if s != [] { AllEntries(s[1..]); }
  }

  lemma {:induction false} TimeKeyIsLong(k: Bytes)
    ensures IsTimeKey(k) ==> |k| > DIGITS
  {}

  // The ids of the entries among the last n keys; None unless n is positive.
  method Recent(skip: SkipList, n: int) returns (ids: Option<seq<Bytes>>, ghost keys: seq<Bytes>)
    requires skip.Valid()
    ensures n <= 0 <==> ids == None
    ensures AllKeys(skip.table, keys)
    ensures n > 0 ==> ids == Some(Ids(Long(LastOf(keys, n))))
  {
    hide Linked, Sorted, Distinct, TopLevel, Represents, AllKeys, Ids, Long, LastOf;
    keys := KeysFrom(skip.chain, 1);
    KeysAreAll(skip.chain, skip.table);
    if n <= 0 { return None, keys; }
    var total := Length(skip);
    TailIsLast(skip.chain, n);
    if total == 0 {
      NoneAreLong();
      return Some([]), keys;
    }
    var start := if total > n then total - n else 0;
    var got := Last(skip, start, total - start);
    return Some(got), keys;
  }

  lemma {:induction false} NoneAreLong()
    ensures Long([]) == [] && Ids([]) == []
  {}

  lemma {:induction false} TailIsLast(c: Chain, n: nat)
    requires |c| > 0
    ensures var start := if |c| - 1 > n then |c| - 1 - n else 0;
      LastOf(KeysFrom(c, 1), n) == KeysFrom(c, start + 1)
    ensures |c| == 1 ==> KeysFrom(c, 1) == []
  {}

  method Length(skip: SkipList) returns (total: nat)
    requires skip.Valid()
    ensures total == |skip.chain| - 1
  {
    hide Linked, Sorted, Distinct, TopLevel, Represents;
    ghost var c := skip.chain;
    total := 0;
    NextNode(c, 0);
    var node := skip.header.forward[0];
    while node != null
      invariant total + 1 <= |c| && node == (if total + 1 < |c| then c[total + 1] else null)
      decreases |c| - total
    {
      NextNode(c, total + 1);
      total := total + 1;
      node := node.forward[0];
    }
  }

  method Skip(skip: SkipList, start: nat) returns (node: SkipNode?)
    requires skip.Valid() && start < |skip.chain|
    ensures node == if start + 1 < |skip.chain| then skip.chain[start + 1] else null
  {
    hide Linked, Sorted, Distinct, TopLevel, Represents;
    ghost var c := skip.chain;
    NextNode(c, 0);
    node := skip.header.forward[0];
    var i := 0;
    while i < start && node != null
      invariant 0 <= i <= start && node == (if i + 1 < |c| then c[i + 1] else null)
    {
      NextNode(c, i + 1);
      node, i := node.forward[0], i + 1;
    }
  }

  method Last(skip: SkipList, start: nat, want: nat) returns (ids: seq<Bytes>)
    requires skip.Valid() && start + want == |skip.chain| - 1
    ensures ids == Ids(Long(KeysFrom(skip.chain, start + 1)))
  {
    hide Linked, Sorted, Distinct, TopLevel, Represents, IsTimeKey, Long, Ids, Partly;
    ghost var c := skip.chain;
    ghost var all := Long(KeysFrom(c, start + 1));
    var node := Skip(skip, start);
    ids := [];
    ghost var a: nat := start + 1;
    PartlyStart(all);
    while node != null && |ids| < want
      invariant start + 1 <= a <= |c| && |ids| <= a - start - 1
      invariant node == (if a < |c| then c[a] else null)
      invariant Partly(ids, all, Long(KeysFrom(c, a)))
      decreases |c| - a
    {
      LongStep(c, a);
      NextNode(c, a);
      if |node.key| > DIGITS {
        PartlyMore(ids, all, node.key, Long(KeysFrom(c, a + 1)));
        ids := ids + [IdOf(node.key)];
      }
      node, a := node.forward[0], a + 1;
    }
    NoneAreLong();
    assert a == |c|;
    PartlyDone(ids, all, Long(KeysFrom(c, a)));
  }

  lemma {:induction false} LongStep(c: Chain, a: nat)
    requires a < |c|
    ensures Long(KeysFrom(c, a)) == if |c[a].key| > DIGITS
      then [c[a].key] + Long(KeysFrom(c, a + 1)) else Long(KeysFrom(c, a + 1))
  {
    assert KeysFrom(c, a)[1..] == KeysFrom(c, a + 1);
  }
}
