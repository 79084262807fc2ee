// The relay of ebpf_relay.c: a pool for segments that come too early and the
// reassembly that joins it to the ring.
module Pool {
  import opened KvData
  import opened Reassembly
  import opened SeqFacts

  datatype Slot = Slot(number: uint32, data: Bytes, used: bool)

  // The bytes of the stream at offset o.
  ghost predicate Piece(stream: Bytes, o: nat, data: Bytes) {
    o + |data| <= |stream| && stream[o..o + |data|] == data
  }

  // slotOf says which slot keeps the segment of an offset: the used slots are
  // its values, one each, and hold pieces of the stream.
  ghost predicate Holds(slots: seq<Slot>, slotOf: map<nat, nat>, isn: uint32, stream: Bytes) {
    && (forall o <- slotOf :: slotOf[o] < |slots| && slots[slotOf[o]].used)
    && (forall i :: 0 <= i < |slots| && slots[i].used ==>
          OffsetOf(isn, slots[i].number) in slotOf && slotOf[OffsetOf(isn, slots[i].number)] == i)
    && (forall o <- slotOf :: OffsetOf(isn, slots[slotOf[o]].number) == o)
    && (forall o <- slotOf :: Piece(stream, o, slots[slotOf[o]].data))
  }

  // The kept segments, as offsets and lengths.
  ghost function Pending(slots: seq<Slot>, slotOf: map<nat, nat>): map<nat, nat>
    requires forall o <- slotOf :: slotOf[o] < |slots|
  {
    map o | o in slotOf :: |slots[slotOf[o]].data|
  }

  lemma {:induction false} Keep(slots: seq<Slot>, slotOf: map<nat, nat>, isn: uint32, stream: Bytes,
                                i: nat, o: nat, s: Slot)
    requires Holds(slots, slotOf, isn, stream) && i < |slots| && !slots[i].used && o !in slotOf
    requires s.used && OffsetOf(isn, s.number) == o && Piece(stream, o, s.data)
    ensures Holds(slots[i := s], slotOf[o := i], isn, stream)
    ensures Pending(slots[i := s], slotOf[o := i]) == Pending(slots, slotOf)[o := |s.data|]
  {}

  lemma {:induction false} Found(slots: seq<Slot>, slotOf: map<nat, nat>, isn: uint32, stream: Bytes, o: nat)
    requires Holds(slots, slotOf, isn, stream) && o in slotOf
    ensures var i := slotOf[o];
      && i < |slots| && slots[i].used && Piece(stream, o, slots[i].data)
      && Pending(slots, slotOf)[o] == |slots[i].data|
  {}

  lemma {:induction false} PendingKeys(slots: seq<Slot>, slotOf: map<nat, nat>, isn: uint32, stream: Bytes)
    requires Holds(slots, slotOf, isn, stream)
    ensures Pending(slots, slotOf).Keys == slotOf.Keys
  {}

  lemma {:induction false} Release(slots: seq<Slot>, slotOf: map<nat, nat>, isn: uint32, stream: Bytes, o: nat)
    requires Holds(slots, slotOf, isn, stream) && o in slotOf
    ensures Holds(slots[slotOf[o] := slots[slotOf[o]].(used := false)], slotOf - {o}, isn, stream)
    ensures Pending(slots[slotOf[o] := slots[slotOf[o]].(used := false)], slotOf - {o})
         == Pending(slots, slotOf) - {o}
  {}

  lemma {:induction false} CountPairs(m: map<nat, nat>)
    requires forall a <- m, b <- m :: m[a] == m[b] ==> a == b
    ensures |m.Values| == |m|
    decreases |m|
  {
    if m != map[] {
      var a :| a in m;
      var m' := m - {a};
      Smaller(m, a);
      CountPairs(m');
      forall v | v in m.Values ensures v in m'.Values + {m[a]} {
        var b :| b in m && m[b] == v;
        if b != a { assert m'[b] == v; }
      }
      assert m.Values == m'.Values + {m[a]};
    } else {
      assert m.Values == {};
    }
  }

  // There is a free slot exactly when fewer segments are kept than slots exist.
  lemma {:induction false} FullWhen(slots: seq<Slot>, slotOf: map<nat, nat>, isn: uint32, stream: Bytes)
    requires Holds(slots, slotOf, isn, stream)
    ensures (forall i :: 0 <= i < |slots| ==> slots[i].used) <==> |Pending(slots, slotOf)| >= |slots|
  {
    UsedSlots(slots, slotOf, isn, stream);
    assert Pending(slots, slotOf).Keys == slotOf.Keys;
    assert |Pending(slots, slotOf)| == |slotOf| == |slotOf.Values|;
    hide Holds, Pending;
    var all := Below(|slots|);
    if forall i :: 0 <= i < |slots| ==> slots[i].used {
      assert slotOf.Values == all;
    } else {
      var j :| 0 <= j < |slots| && !slots[j].used;
      Within(slotOf.Values, all - {j});
    }
  }

  lemma {:induction false} UsedSlots(slots: seq<Slot>, slotOf: map<nat, nat>, isn: uint32, stream: Bytes)
    requires Holds(slots, slotOf, isn, stream)
    ensures |slotOf.Values| == |slotOf|
    ensures forall i :: i in slotOf.Values <==> 0 <= i < |slots| && slots[i].used
  {
    CountPairs(slotOf);
  }

  lemma {:induction false} Within(a: set<nat>, b: set<nat>)
    requires a <= b
    ensures |a| <= |b|
    decreases a
  {
    if a != {} {
      var x :| x in a;
      Within(a - {x}, b - {x});
    }
  }
}

module Relay {
  import opened KvData
  import opened Reassembly
  import opened SeqFacts
  import opened Ring
  import opened Pool

  const MAX_PAYLOAD: nat := 1024
  const MAX_ROUNDS: nat := 64

  // What send() does with the bytes it is offered: it takes up to n of them, or
  // would block, or fails.
  datatype Answer = Taken(n: nat) | Blocked | Failed

  lemma {:induction false} SeqAdd(isn: uint32, o: nat, len: nat)
    ensures (SeqOf(isn, o) + len) % TWO_32 == SeqOf(isn, o + len)
  {
    ModShift((isn + o) % TWO_32 + len, (isn + o) / TWO_32);
  }

  lemma {:induction false} SeqDistance(isn: uint32, a: nat, b: nat)
    requires a <= b < a + TWO_32
    ensures (SeqOf(isn, b) - SeqOf(isn, a)) % TWO_32 == b - a
  {
    ModDifference(isn + b, isn + a);
  }

  lemma {:induction false} SameSeq(isn: uint32, a: nat, b: nat)
    requires a < TWO_32 && b < TWO_32
    ensures SeqOf(isn, a) == SeqOf(isn, b) <==> a == b
  {
    OffsetRoundTrip(isn, a);
    OffsetRoundTrip(isn, b);
  }

  lemma {:induction false} Tail(stream: Bytes, o: nat, data: Bytes, k: nat)
    requires Piece(stream, o, data) && k <= |data|
    ensures Piece(stream, o + k, data[k..])
  {}

  // Offsets near the frontier compare as the code compares their numbers.
  ghost predicate Near(o: nat, next: nat) {
    -TWO_31 < o - next < TWO_31
  }

  lemma {:induction false} NearCompares(isn: uint32, o: nat, next: nat)
    requires o < TWO_32 && next < TWO_32 && Near(o, next)
    ensures SeqOf(isn, o) == SeqOf(isn, next) <==> o == next
    ensures SeqGt(SeqOf(isn, o), SeqOf(isn, next)) <==> o > next
  {
    SameSeq(isn, o, next);
    SeqGtIsGreater(isn, o, next);
  }

  // One turn of the main loop is some events and an attempt to send.
  datatype Step = Event(number: uint32, payload: Bytes) | Flush(answers: seq<Answer>)

  // The payload is what the stream has at its sequence number, however it is cut.
  ghost predicate Genuine(s: Step, stream: Bytes, isn: uint32) {
    match s
    case Event(number, payload) => Piece(stream, OffsetOf(isn, number), payload)
    case Flush(answers) => |answers| == MAX_ROUNDS
  }

  ghost predicate AllGenuine(steps: seq<Step>, stream: Bytes, isn: uint32) {
    forall i :: 0 <= i < |steps| ==> Genuine(steps[i], stream, isn)
  }

  // The segments among the first n steps; other payload lengths are ignored.
  function Segments(steps: seq<Step>, n: nat, isn: uint32): (run: seq<Segment>)
    requires n <= |steps|
    ensures forall g <- run :: g.len > 0
  {
    if n == 0 then []
    else
      var before := Segments(steps, n - 1, isn);
      match steps[n - 1]
      case Event(number, payload) =>
        if 0 < |payload| <= MAX_PAYLOAD then before + [Segment(OffsetOf(isn, number), |payload|)] else before
      case Flush(_) => before
  }

  class Relay {
    const rb: RingBuf
    const pool: array<Slot>
    var expectedSeq: uint32
    var seqInitialized: bool
    var running: bool

    // The stream that the segments are cut from, and where its offset 0 is
    // numbered.
    ghost const stream: Bytes
    ghost const isn: uint32

    ghost var sent: Bytes
    // What was passed on before the present epoch; since then it is the stream
    // from base to next.
    ghost var done: Bytes
    ghost var base: nat
    ghost var next: nat
    ghost var slotOf: map<nat, nat>

    ghost predicate PoolOk()
      reads this`slotOf, pool
    {
      && pool.Length == OOO_MAX && |stream| < TWO_32
      && Holds(pool[..], slotOf, isn, stream)
    }

    ghost predicate FrontierOk()
      reads this`slotOf, this`base, this`next, this`expectedSeq, this`seqInitialized
    {
      && base <= next <= |stream|
      && (seqInitialized ==> expectedSeq == SeqOf(isn, next))
      && (!seqInitialized ==> slotOf == map[])
    }

    ghost predicate Valid()
      reads this, pool, rb, rb.buf
    {
      && rb.Valid() && PoolOk() && FrontierOk()
      && sent + rb.Queued() == done + stream[base..next]
    }

    ghost function Abs(): State
      requires PoolOk()
      reads this`slotOf, this`base, this`next, this`seqInitialized, pool
    {
      State(seqInitialized, base, next, Pending(pool[..], slotOf))
    }

    ghost function Output(): Bytes
      requires rb.Valid()
      reads this, rb, rb.buf
    {
      sent + rb.Queued()
    }

    constructor (ringSize: nat, ghost stream: Bytes, ghost isn: uint32)
      requires ringSize > 0 && |stream| < TWO_32
      ensures Valid() && fresh(pool) && fresh(rb) && fresh(rb.buf)
      ensures this.stream == stream && this.isn == isn
      ensures Abs() == Fresh && Output() == [] && done == []
    {
      rb := new RingBuf(ringSize);
      pool := new Slot[OOO_MAX](i => Slot(0, [], false));
      expectedSeq, seqInitialized, running := 0, false, true;
      this.stream, this.isn := stream, isn;
      sent, done, base, next, slotOf := [], [], 0, 0, map[];
    }

    // ------------------------------------------------------------ sending

    method RbSend(answer: Answer) returns (r: int)
      requires Valid()
      modifies this`sent, this`running, rb`head, rb`bytes
      ensures Valid() && Output() == old(Output()) && rb.bytes <= old(rb.bytes)
      ensures old(sent) <= sent
      ensures r == |sent| - |old(sent)| || (r == -1 && !running && sent == old(sent))
      ensures r == -1 <==> old(rb.bytes) !in {0, rb.buf.Length} && answer in {Failed, Taken(0)}
      ensures r != -1 ==> running == old(running)
      ensures r == 0 <==> old(rb.bytes) in {0, rb.buf.Length} || answer.Blocked?
      ensures answer.Taken? && answer.n >= rb.buf.Length && r > 0 ==>
        rb.bytes == 0 || (rb.head == 0 && old(rb.head) > 0)
    {
      hide PoolOk, Window, rb.Readable, rb.Queued;
      if rb.bytes == 0 { return 0; }
      var avail := rb.Readable();
      if avail == 0 { return 0; }
      match answer
      case Blocked => return 0;
      case Failed => running := false; return -1;
      case Taken(n) =>
        var taken := if n < avail then n else avail;
        if taken == 0 { running := false; return -1; }
        ghost var chunk := rb.buf[rb.head..rb.head + taken];
        rb.Consume(taken);
        Assoc(sent, chunk, rb.Queued());
        sent := sent + chunk;
        return taken;
    }

    // answers: what send() does in each round.
    method FlushAll(answers: seq<Answer>)
      requires Valid() && |answers| == MAX_ROUNDS
      modifies this`sent, this`running, rb`head, rb`bytes
      ensures Valid() && Output() == old(Output()) && old(sent) <= sent
      // A willing socket empties the ring, unless the ring was exactly full.
      ensures old(rb.bytes) == rb.buf.Length ==> sent == old(sent)
      ensures old(running) && (forall a <- answers :: a.Taken? && a.n >= rb.buf.Length) ==>
        (rb.bytes == 0 <==> old(rb.bytes) != rb.buf.Length)
    {
      var rounds := 0;
      while rb.bytes > 0 && running && rounds < MAX_ROUNDS
        invariant Valid() && Output() == old(Output()) && old(sent) <= sent
        invariant 0 <= rounds <= MAX_ROUNDS
        invariant rounds == 0 ==> sent == old(sent) && rb.bytes == old(rb.bytes) && running == old(running)
        invariant rounds > 0 ==> rb.bytes < rb.buf.Length && old(rb.bytes) < rb.buf.Length
        invariant rounds > 0 && old(running) && (forall a <- answers :: a.Taken? && a.n >= rb.buf.Length) ==>
          running && (rb.bytes == 0 || (rb.head == 0 && rounds < 2))
      {
        assert answers[rounds] in answers;
        var ret := RbSend(answers[rounds]);
        rounds := rounds + 1;
        if ret <= 0 { break; }
      }
    }

    // ------------------------------------------------- the out-of-order pool

    method OooFindSeq(number: uint32) returns (r: int)
      requires PoolOk()
      ensures r == -1 ==> OffsetOf(isn, number) !in slotOf
      ensures r != -1 ==> OffsetOf(isn, number) in slotOf && slotOf[OffsetOf(isn, number)] == r
    {
      var i := 0;
      while i < pool.Length
        invariant 0 <= i <= pool.Length
        invariant forall j :: 0 <= j < i && pool[j].used ==> pool[j].number != number
      {
        if pool[i].used && pool[i].number == number { return i; }
        i := i + 1;
      }
      if OffsetOf(isn, number) in slotOf {
        SeqRoundTrip(isn, number);
        SeqRoundTrip(isn, pool[slotOf[OffsetOf(isn, number)]].number);
      }
      return -1;
    }

    method OooFindFree() returns (r: int)
      requires PoolOk()
      ensures r == -1 <==> |Abs().pending| >= OOO_MAX
      ensures r != -1 ==> 0 <= r < pool.Length && !pool[r].used
    {
      FullWhen(pool[..], slotOf, isn, stream);
      var i := 0;
      while i < pool.Length
        invariant 0 <= i <= pool.Length
        invariant forall j :: 0 <= j < i ==> pool[j].used
      {
        if !pool[i].used {
          assert !pool[..][i].used;
          return i;
        }
        i := i + 1;
      }
      return -1;
    }

    method OooReset()
      requires Valid()
      modifies this`slotOf, this`seqInitialized, pool
      ensures Valid() && Abs() == State(false, base, next, map[])
    {
      forall i | 0 <= i < pool.Length { pool[i] := Slot(0, [], false); }
      slotOf, seqInitialized := map[], false;
    }

    method OooStore(idx: nat, number: uint32, data: Bytes, ghost o: nat)
      requires Valid() && seqInitialized && Piece(stream, o, data) && number == SeqOf(isn, o)
      requires idx < pool.Length && !pool[idx].used && o !in slotOf
      modifies this`slotOf, pool
      ensures Valid() && Abs() == old(Abs()).(pending := old(Abs()).pending[o := |data|])
    {
      hide Holds, Window, rb.Queued;
      OffsetRoundTrip(isn, o);
      var slot := Slot(number, data, true);
      Keep(pool[..], slotOf, isn, stream, idx, o, slot);
      ghost var slots := pool[..];
      pool[idx] := slot;
      assert pool[..] == slots[idx := slot];
      slotOf := slotOf[o := idx];
    }

    method OooInsert(number: uint32, data: Bytes, ghost o: nat)
      requires Valid() && seqInitialized && Piece(stream, o, data) && number == SeqOf(isn, o)
      modifies this`slotOf, this`seqInitialized, pool
      ensures Valid()
      ensures Abs() == if o in old(Abs()).pending then old(Abs())
        else if |old(Abs()).pending| >= 128 then State(false, base, next, map[])
        else old(Abs()).(pending := old(Abs()).pending[o := |data|])
    {
      hide Window, rb.Queued, Holds, Pending;
      OffsetRoundTrip(isn, o);
      PendingKeys(pool[..], slotOf, isn, stream);
      var found := OooFindSeq(number);
      if found >= 0 { return; }
      var idx := OooFindFree();
      if idx < 0 {
        OooReset();
      } else {
        OooStore(idx, number, data, o);
      }
    }

    // ----------------------------------------------------------- reassembly

    method PassOn(data: Bytes)
      requires Valid() && seqInitialized && Piece(stream, next, data)
      modifies rb, rb.buf, this`next, this`expectedSeq
      ensures Valid() && next == old(next) + |data|
      ensures rb.buf == old(rb.buf) || fresh(rb.buf)
    {
      hide rb.Valid, rb.Queued, PoolOk, SeqOf;
      rb.Write(data);
      SeqAdd(isn, next, |data|);
      expectedSeq := (expectedSeq + |data|) % TWO_32;
      Assoc(sent, old(rb.Queued()), data);
      Assoc(done, stream[base..next], data);
      assert stream[base..next] + data == stream[base..next + |data|];
      next := next + |data|;
    }

    method OooFlush()
      requires Valid() && seqInitialized
      modifies rb, rb.buf, this`next, this`expectedSeq, this`slotOf, pool
      ensures Valid()
      ensures (next, Abs().pending) == Drain(old(next), old(Abs()).pending)
      ensures rb.buf == old(rb.buf) || fresh(rb.buf)
    {
      hide Drain, PoolOk, FrontierOk, Abs, rb.Valid, rb.Queued;
      var merged := true;
      while merged
        invariant Valid()
        invariant rb.buf == old(rb.buf) || fresh(rb.buf)
        invariant Drain(next, Abs().pending) == Drain(old(next), old(Abs()).pending)
        invariant !merged ==> Drain(next, Abs().pending) == (next, Abs().pending)
        decreases |slotOf|, merged
      {
        merged := MergeOne();
      }
    }

    // The first kept segment that starts at the frontier, if any.
    method MergeOne() returns (merged: bool)
      requires Valid() && seqInitialized
      modifies rb, rb.buf, this`next, this`expectedSeq, this`slotOf, pool
      ensures Valid()
      ensures rb.buf == old(rb.buf) || fresh(rb.buf)
      ensures Drain(next, Abs().pending) == Drain(old(next), old(Abs()).pending)
      ensures if merged then |slotOf| < |old(slotOf)|
              else slotOf == old(slotOf) && Drain(next, Abs().pending) == (next, Abs().pending)
    {
      hide Holds, Pending, Window, rb.Queued;
      OffsetRoundTrip(isn, next);
      PendingKeys(pool[..], slotOf, isn, stream);
      var i := OooFindSeq(expectedSeq);
      if i < 0 { return false; }
      Found(pool[..], slotOf, isn, stream, next);
      Release(pool[..], slotOf, isn, stream, next);
      Smaller(slotOf, next);
      ghost var slots := pool[..];
      PassOn(pool[i].data);
      pool[i] := pool[i].(used := false);
      assert pool[..] == slots[i := slots[i].(used := false)];
      slotOf := slotOf - {old(next)};
      return true;
    }

    // The first segment of an epoch says where it starts.
    method Begin(number: uint32, ghost o: nat)
      requires Valid() && o <= |stream| && number == SeqOf(isn, o)
      modifies this`expectedSeq, this`seqInitialized, this`done, this`base, this`next
      ensures Valid() && seqInitialized && Output() == old(Output())
      ensures Abs() == if old(seqInitialized) then old(Abs()) else State(true, o, o, old(Abs()).pending)
      ensures next == if old(seqInitialized) then old(next) else o
      ensures done == if old(seqInitialized) then old(done) else old(Output())
    {
      if !seqInitialized {
        expectedSeq := number;
        seqInitialized := true;
        done, base, next := Output(), o, o;
      }
    }

    method Join(data: Bytes)
      requires Valid() && seqInitialized && Piece(stream, next, data)
      modifies rb, rb.buf, this`next, this`expectedSeq, this`slotOf, pool
      ensures Valid() && Abs() == Advance(old(Abs()), old(next) + |data|)
      ensures rb.buf == old(rb.buf) || fresh(rb.buf)
    {
      hide Drain, PoolOk, FrontierOk, Piece, rb.Valid, rb.Queued;
      PassOn(data);
      OooFlush();
    }

    // A segment that starts before the frontier: what it has beyond it is used.
    method JoinTail(number: uint32, data: Bytes, ghost o: nat)
      requires Valid() && seqInitialized && Piece(stream, o, data) && number == SeqOf(isn, o)
      requires o < next && Near(o, next) && Near(o + |data|, next)
      modifies rb, rb.buf, this`next, this`expectedSeq, this`slotOf, pool
      ensures rb.buf == old(rb.buf) || fresh(rb.buf)
      ensures Valid()
      ensures Abs() == if o + |data| > old(next) then Advance(old(Abs()), o + |data|) else old(Abs())
    {
      hide Advance, Holds, Pending, SeqOf, SeqGt, rb.Valid, rb.Queued;
      SeqAdd(isn, o, |data|);
      var end := (number + |data|) % TWO_32;
      NearCompares(isn, o + |data|, next);
      if SeqGt(end, expectedSeq) {
        SeqDistance(isn, o, next);
        SeqDistance(isn, next, o + |data|);
        var offset, newLen := (expectedSeq - number) % TWO_32, (end - expectedSeq) % TWO_32;
        assert offset + newLen == |data|;
        Tail(stream, o, data, offset);
        Join(data[offset..offset + newLen]);
      }
    }

    method Dispatch(number: uint32, data: Bytes, ghost o: nat)
      requires Valid() && seqInitialized && Piece(stream, o, data) && number == SeqOf(isn, o)
      requires Near(o, next) && (o < next ==> Near(o + |data|, next))
      modifies rb, rb.buf, pool
      modifies this`expectedSeq, this`seqInitialized, this`next, this`slotOf
      ensures rb.buf == old(rb.buf) || fresh(rb.buf)
      ensures Valid() && Abs() == Arrive(old(Abs()), o, |data|)
    {
      hide Advance, Holds, Pending, SeqOf, SeqGt, rb.Valid, rb.Queued;
      NearCompares(isn, o, next);
      if number == expectedSeq {
        Join(data);
      } else if SeqGt(number, expectedSeq) {
        OooInsert(number, data, o);
      } else {
        JoinTail(number, data, o);
      }
    }

    method Process(number: uint32, data: Bytes, ghost o: nat)
      requires Valid() && Piece(stream, o, data) && number == SeqOf(isn, o)
      requires seqInitialized ==> Near(o, next) && Near(o + |data|, next)
      modifies rb, rb.buf, pool
      modifies this`expectedSeq, this`seqInitialized, this`done, this`base, this`next, this`slotOf
      ensures rb.buf == old(rb.buf) || fresh(rb.buf)
      ensures Valid() && Abs() == Arrive(old(Abs()), o, |data|)
      ensures done == if old(seqInitialized) then old(done) else old(Output())
    {
      hide Advance, PoolOk, FrontierOk, rb.Valid, rb.Queued;
      Begin(number, o);
      Dispatch(number, data, o);
    }

    // The callback for an event: a payload of an odd length is dropped.
    method HandleEvent(number: uint32, payload: Bytes, ghost o: nat)
      requires Valid() && Piece(stream, o, payload) && number == SeqOf(isn, o)
      requires seqInitialized ==> Near(o, next) && Near(o + |payload|, next)
      modifies rb, rb.buf, pool
      modifies this`expectedSeq, this`seqInitialized, this`done, this`base, this`next, this`slotOf
      ensures rb.buf == old(rb.buf) || fresh(rb.buf)
      ensures Valid()
      ensures if 0 < |payload| <= 1024
              then Abs() == Arrive(old(Abs()), o, |payload|) &&
                   done == if old(seqInitialized) then old(done) else old(Output())
              else Abs() == old(Abs()) && done == old(done) && Output() == old(Output())
    {
      if |payload| == 0 || |payload| > MAX_PAYLOAD { return; }
      Process(number, payload, o);
    }

    ghost predicate Follows(run: seq<Segment>)
      requires PoolOk()
      reads this, pool
    {
      Abs() == Feed(run) && (NeverFull(run) ==> done == [])
    }

    method RunStep(steps: seq<Step>, n: nat)
      requires Valid() && |stream| < TWO_31 && n < |steps| && AllGenuine(steps, stream, isn)
      requires Follows(Segments(steps, n, isn))
      modifies this, pool, rb, rb.buf
      ensures Valid()
      ensures rb.buf == old(rb.buf) || fresh(rb.buf)
      ensures Follows(Segments(steps, n + 1, isn))
    {
      assert Genuine(steps[n], stream, isn);
      match steps[n] {
        case Event(number, payload) =>
          HandleOne(number, payload, Segments(steps, n, isn));
        case Flush(answers) =>
          FlushAll(answers);
      }
    }

    method HandleOne(number: uint32, payload: Bytes, ghost run: seq<Segment>)
      requires Valid() && |stream| < TWO_31 && Piece(stream, OffsetOf(isn, number), payload) && Follows(run)
      modifies this, pool, rb, rb.buf
      ensures Valid()
      ensures rb.buf == old(rb.buf) || fresh(rb.buf)
      ensures Follows(if 0 < |payload| <= MAX_PAYLOAD then run + [Segment(OffsetOf(isn, number), |payload|)] else run)
    {
      ghost var o := OffsetOf(isn, number);
      SeqRoundTrip(isn, number);
      FeedMore(run, Segment(o, |payload|));
      FirstDone(run);
      hide Feed, Arrive, NeverFull, Dropped, SeqOf, rb.Queued;
      HandleEvent(number, payload, o);
    }

    lemma {:induction false} FirstDone(run: seq<Segment>)
      requires Valid() && Follows(run)
      ensures NeverFull(run) && !seqInitialized ==> Output() == []
    {}

    // Sent and queued bytes are the stream from the first arrival to the frontier,
    // of which everything has arrived; and the frontier is the first byte that has
    // not arrived, unless it lies inside a kept or a dropped segment.
    ghost predicate InOrder(run: seq<Segment>)
      requires rb.Valid() && PoolOk() && FrontierOk() && run != []
      reads this, pool, rb, rb.buf
    {
      && sent <= stream[base..next] && sent + rb.Queued() == stream[base..next]
      && base == run[0].o && (forall x :: base <= x < next ==> Arrived(run, x))
      && (!Arrived(run, next) <==> !Straddled(Abs()) && !DropStraddled(run, next))
    }

    lemma {:induction false} Conclude(run: seq<Segment>)
      requires Valid() && run != [] && Follows(run) && NeverFull(run) && forall g <- run :: g.len > 0
      ensures InOrder(run)
    {
      hide PoolOk, NeverFull, Feed, Straddled, DropStraddled, Arrived, rb.Valid, rb.Queued;
      AnyOrderReassembles(run);
      assert done + stream[base..next] == stream[base..next];
    }

    // A run from the start: segments of the stream in any order, of any cut and
    // repeated at will, with attempts to send in between.
    method Run(steps: seq<Step>) returns (n: nat)
      requires Valid() && Abs() == Fresh && done == []
      requires |stream| < TWO_31 && AllGenuine(steps, stream, isn)
      modifies this, pool, rb, rb.buf
      ensures Valid() && n <= |steps| && (n == |steps| || !running)
      ensures Abs() == Feed(Segments(steps, n, isn))
      ensures var run := Segments(steps, n, isn);
        run != [] && NeverFull(run) ==> InOrder(run)
    {
      hide PoolOk, FrontierOk, Segments, AllGenuine, NeverFull, InOrder, rb.Valid, rb.Queued;
      FollowsAtStart(steps);
      n := RunLoop(steps);
      ghost var run := Segments(steps, n, isn);
      if run != [] && NeverFull(run) {
        Conclude(run);
      }
    }

    lemma {:induction false} FollowsAtStart(steps: seq<Step>)
      requires PoolOk() && Abs() == Fresh && done == []
      ensures Follows(Segments(steps, 0, isn))
    {}

    method RunLoop(steps: seq<Step>) returns (n: nat)
      requires Valid() && |stream| < TWO_31 && AllGenuine(steps, stream, isn)
      requires Follows(Segments(steps, 0, isn))
      modifies this, pool, rb, rb.buf
      ensures Valid() && n <= |steps| && (n == |steps| || !running)
      ensures Follows(Segments(steps, n, isn))
    {
      hide PoolOk, FrontierOk, Segments, AllGenuine, Follows, rb.Valid, rb.Queued;
      n := 0;
      while n < |steps| && running
        invariant 0 <= n <= |steps| && Valid()
        invariant rb.buf == old(rb.buf) || fresh(rb.buf)
        invariant Follows(Segments(steps, n, isn))
      {
        RunStep(steps, n);
        n := n + 1;
      }
    }
  }
}
