// The records of a snapshot file as bytes, and reading them back (snapshot.c).
module SnapshotCodec {
  import opened KvData
  import opened SeqFacts
  import Fnv

  const MAX_KEY: nat := 1024 * 1024
  const MAX_VALUE: nat := 10 * 1024 * 1024
  const TWO_31: int := 0x8000_0000
  const TWO_32: int := 0x1_0000_0000
  const TWO_63: int := 0x8000_0000_0000_0000
  const TWO_64: int := 0x1_0000_0000_0000_0000

  // kind: 1 to 8, one for each table.
  datatype Record = Record(kind: nat, expire: int, key: Bytes, value: Bytes)

  // ------------------------------------------------------- little-endian words

  function LE(n: nat, w: nat): (s: Bytes)
    ensures |s| == w
    decreases w
  {
    if w == 0 then [] else [n % 256] + LE(n / 256, w - 1)
  }

  function UnLE(s: Bytes): nat {
    if s == [] then 0 else s[0] + 256 * UnLE(s[1..])
  }

  function Pow256(w: nat): (p: nat)
    ensures p > 0
  {
    if w == 0 then 1 else 256 * Pow256(w - 1)
  }

  lemma {:induction false} UnLEOfLE(n: nat, w: nat)
    requires n < Pow256(w)
    ensures UnLE(LE(n, w)) == n
    decreases w
  {
    if w > 0 { UnLEOfLE(n / 256, w - 1); }
  }

  lemma {:induction false} UnLEInjective(s: Bytes, t: Bytes)
    requires |s| == |t| && UnLE(s) == UnLE(t)
    ensures s == t
  {
    if s != [] {
      assert s[0] == UnLE(s) % 256 && t[0] == UnLE(t) % 256;
      UnLEInjective(s[1..], t[1..]);
      assert s == [s[0]] + s[1..] && t == [t[0]] + t[1..];
    }
  }

  // The lowest byte comes first.
  lemma {:induction false} LowestFirst(n: nat, w: nat, i: nat)
    requires i < w
    ensures LE(n, w)[i] == n / Pow256(i) % 256
    decreases w
  {
    if i > 0 {
      LowestFirst(n / 256, w - 1, i - 1);
      Fnv.Quotients(n, 256, Pow256(i - 1));
    }
  }

  // int and int64_t, read and written.
  function Int(s: Bytes): int {
    if UnLE(s) < TWO_31 then UnLE(s) else UnLE(s) - TWO_32
  }

  function Long(s: Bytes): int {
    if UnLE(s) < TWO_63 then UnLE(s) else UnLE(s) - TWO_64
  }

  function OfLong(e: int): nat {
    e % TWO_64
  }

  lemma {:induction false} IntRoundTrip(n: nat)
    requires n < TWO_31
    ensures Int(LE(n, 4)) == n
  {
    assert Pow256(2) == 65536 && Pow256(4) == 65536 * Pow256(2);
    UnLEOfLE(n, 4);
  }

  lemma {:induction false} LongRoundTrip(e: int)
    requires -TWO_63 <= e < TWO_63
    ensures Long(LE(OfLong(e), 8)) == e
  {
    assert Pow256(2) == 65536 && Pow256(4) == 65536 * Pow256(2);
    assert Pow256(6) == 65536 * Pow256(4) && Pow256(8) == 65536 * Pow256(6);
    UnLEOfLE(OfLong(e), 8);
    assert e >= 0 ==> OfLong(e) == e;
    assert e < 0 ==> OfLong(e) == e + TWO_64;
  }

  // ---------------------------------------------------------------- records

  // One call of a write callback.
  function Encode(r: Record): Bytes {
    LE(r.kind, 4) + (LE(OfLong(r.expire), 8) + (LE(|r.key|, 4) + (r.key + (LE(|r.value|, 4) + r.value))))
  }

  function EncodeAll(rs: seq<Record>): Bytes {
    if rs == [] then [] else Encode(rs[0]) + EncodeAll(rs[1..])
  }

  datatype Step = Stop | Next(record: Record, next: nat)

  // One pass of the load loop at position p of the data.
  function RecordAt(d: Bytes, p: nat): (s: Step)
    ensures s.Next? ==> p + 20 < s.next <= |d|
  {
    if p + 4 > |d| then Stop else
    var kind := Int(d[p..p + 4]);
    if kind < 1 || kind > 8 || p + 12 > |d| then Stop else
    var expire := Long(d[p + 4..p + 12]);
    if p + 16 > |d| then Stop else
    var keyLen := Int(d[p + 12..p + 16]);
    if keyLen <= 0 || keyLen > MAX_KEY || p + 16 + keyLen > |d| then Stop else
    var q := p + 16 + keyLen;
    if q + 4 > |d| then Stop else
    var valLen := Int(d[q..q + 4]);
    if valLen < 0 || valLen > MAX_VALUE || q + 4 + valLen > |d| then Stop
    else Next(Record(kind, expire, d[p + 16..q], d[q + 4..q + 4 + valLen]), q + 4 + valLen)
  }

  function Decode(d: Bytes, p: nat): seq<Record>
    decreases |d| - p
  {
    var s := RecordAt(d, p);
    if s == Stop then [] else [s.record] + Decode(d, s.next)
  }

  // What the fields of a record can hold, and what the loader accepts.
  predicate Storable(r: Record) {
    r.kind < TWO_31 && -TWO_63 <= r.expire < TWO_63 && |r.key| < TWO_31 && |r.value| < TWO_31
  }

  predicate Loadable(r: Record) {
    1 <= r.kind <= 8 && 1 <= |r.key| <= MAX_KEY && |r.value| <= MAX_VALUE
  }

  lemma {:induction false} Pieces(d: Bytes, p: nat, r: Record)
    requires Occurs(d, p, Encode(r))
    ensures var k, n := |r.key|, |r.value|;
      var q := p + 16 + k;
      && |Encode(r)| == 20 + k + n && q + 4 + n <= |d|
      && d[p..p + 4] == LE(r.kind, 4) && d[p + 4..p + 12] == LE(OfLong(r.expire), 8)
      && d[p + 12..p + 16] == LE(k, 4) && d[p + 16..q] == r.key
      && d[q..q + 4] == LE(n, 4) && d[q + 4..q + 4 + n] == r.value
  {
    var k, n := |r.key|, |r.value|;
    hide LE, OfLong;
    SixPieces(d, p, LE(r.kind, 4), LE(OfLong(r.expire), 8), LE(k, 4), r.key, LE(n, 4), r.value);
  }

  lemma {:induction false} SixPieces(d: Bytes, p: nat, a: Bytes, b: Bytes, c: Bytes, e: Bytes, f: Bytes, g: Bytes)
    requires Occurs(d, p, a + (b + (c + (e + (f + g)))))
    ensures Occurs(d, p, a) && Occurs(d, p + |a|, b) && Occurs(d, p + |a| + |b|, c)
    ensures var q := p + |a| + |b| + |c|;
      Occurs(d, q, e) && Occurs(d, q + |e|, f) && Occurs(d, q + |e| + |f|, g)
  {
    hide Occurs;
    OccursSplit(d, p, a, b + (c + (e + (f + g))));
    OccursSplit(d, p + |a|, b, c + (e + (f + g)));
    OccursSplit(d, p + |a| + |b|, c, e + (f + g));
    OccursSplit(d, p + |a| + |b| + |c|, e, f + g);
    OccursSplit(d, p + |a| + |b| + |c| + |e|, f, g);
  }

  lemma {:induction false} RecordReads(d: Bytes, p: nat, r: Record)
    requires Storable(r) && Occurs(d, p, Encode(r))
    ensures RecordAt(d, p) == if Loadable(r) then Next(r, p + |Encode(r)|) else Stop
    ensures Loadable(r) <==> 1 <= r.kind <= 8 && 0 < |r.key| <= 1048576 && |r.value| <= 10485760
  {
    hide LE, Int, Long, OfLong, UnLE, Encode, Occurs;
    Pieces(d, p, r);
    IntRoundTrip(r.kind);
    LongRoundTrip(r.expire);
    IntRoundTrip(|r.key|);
    IntRoundTrip(|r.value|);
  }

  lemma {:induction false} LEOfUnLE(s: Bytes)
    ensures LE(UnLE(s), |s|) == s && UnLE(s) < Pow256(|s|)
  {
    if s != [] {
      LEOfUnLE(s[1..]);
      assert s == [s[0]] + s[1..];
    }
  }

  lemma {:induction false} IntIsLE(s: Bytes)
    requires |s| == 4
    ensures Int(s) >= 0 ==> LE(Int(s), 4) == s && Int(s) < TWO_31
  {
    hide LE, UnLE, Pow256;
    LEOfUnLE(s);
    Widths();
  }

  lemma {:induction false} LongIsLE(s: Bytes)
    requires |s| == 8
    ensures LE(OfLong(Long(s)), 8) == s && -TWO_63 <= Long(s) < TWO_63
  {
    hide LE, UnLE, Pow256;
    LEOfUnLE(s);
    Widths();
    Unwrapped(UnLE(s));
  }

  lemma {:induction false} Widths()
    ensures Pow256(4) == TWO_32 && Pow256(8) == TWO_64
  {
    assert Pow256(2) == 65536 && Pow256(4) == 65536 * Pow256(2);
    assert Pow256(6) == 65536 * Pow256(4) && Pow256(8) == 65536 * Pow256(6);
  }

  lemma {:induction false} Unwrapped(u: nat)
    requires u < TWO_64
    ensures OfLong(if u < TWO_63 then u else u - TWO_64) == u
  {
    if u < TWO_63 {
      assert u % TWO_64 == u;
    } else {
      assert (u - TWO_64) % TWO_64 == u;
    }
  }

  // Where the fields of a record lie that is read.
  lemma {:induction false} ReadFields(d: Bytes, p: nat)
    requires RecordAt(d, p).Next?
    ensures var r, next := RecordAt(d, p).record, RecordAt(d, p).next;
      var q := p + 16 + |r.key|;
      && Loadable(r) && q + 4 <= next <= |d| && next == q + 4 + |r.value|
      && Int(d[p..p + 4]) == r.kind && Long(d[p + 4..p + 12]) == r.expire && Int(d[p + 12..p + 16]) == |r.key|
      && d[p + 16..q] == r.key && Int(d[q..q + 4]) == |r.value| && d[q + 4..next] == r.value
  {
    hide Int, Long, LE, UnLE;
  }

  // Whatever the data is, what is read as a record is one, byte for byte.
  lemma {:induction false} OnlyRecordsRead(d: Bytes, p: nat)
    requires RecordAt(d, p).Next?
    ensures var r := RecordAt(d, p).record;
      && Storable(r) && Loadable(r) && Occurs(d, p, Encode(r)) && RecordAt(d, p).next == p + |Encode(r)|
  {
    hide LE, Int, Long, OfLong, UnLE, RecordAt;
    ReadFields(d, p);
    var r, next := RecordAt(d, p).record, RecordAt(d, p).next;
    var q := p + 16 + |r.key|;
    IntIsLE(d[p..p + 4]);
    LongIsLE(d[p + 4..p + 12]);
    IntIsLE(d[p + 12..p + 16]);
    IntIsLE(d[q..q + 4]);
    SixJoined(d, p, q, next);
    assert d[p..next] == Encode(r);
  }

  lemma {:induction false} SixJoined(d: Bytes, p: nat, q: nat, next: nat)
    requires p + 16 <= q && q + 4 <= next <= |d|
    ensures d[p..next] == d[p..p + 4] + (d[p + 4..p + 12] + (d[p + 12..p + 16] + (d[p + 16..q] + (d[q..q + 4] + d[q + 4..next]))))
  {}

  // The records up to the first that the loader does not accept.
  function Accepted(rs: seq<Record>): seq<Record> {
    if rs == [] || !Loadable(rs[0]) then [] else [rs[0]] + Accepted(rs[1..])
  }

  lemma {:induction false} NoRecordAtEnd(d: Bytes)
    ensures RecordAt(d, |d|) == Stop
  {}

  lemma {:induction false} DecodeReads(d: Bytes, p: nat, rs: seq<Record>)
    requires (forall r <- rs :: Storable(r)) && Occurs(d, p, EncodeAll(rs)) && |d| == p + |EncodeAll(rs)|
    ensures Decode(d, p) == Accepted(rs)
    decreases |rs|
  {
    NoRecordAtEnd(d);
    if rs != [] {
      var r := rs[0];
      hide Encode, RecordAt, Occurs;
      OccursSplit(d, p, Encode(r), EncodeAll(rs[1..]));
      RecordReads(d, p, r);
      if Loadable(r) { DecodeReads(d, p + |Encode(r)|, rs[1..]); }
    }
  }

  // All records come back exactly if each of them can be loaded: in particular
  // an entry with an empty key ends the load there.
  lemma {:induction false} RoundTrip(rs: seq<Record>)
    requires forall r <- rs :: Storable(r)
    ensures Decode(EncodeAll(rs), 0) == Accepted(rs)
    ensures Decode(EncodeAll(rs), 0) == rs <==> forall r <- rs :: Loadable(r)
  {
    DecodeReads(EncodeAll(rs), 0, rs);
    AllAccepted(rs);
  }

  lemma {:induction false} AllAccepted(rs: seq<Record>)
    ensures Accepted(rs) == rs <==> forall r <- rs :: Loadable(r)
    ensures |Accepted(rs)| <= |rs|
  {
    if rs != [] {
      AllAccepted(rs[1..]);
      assert rs == [rs[0]] + rs[1..];
    }
  }
}
