// TCP sequence numbers and the reassembly of a byte stream, on plain offsets:
// the reference that the relay of ebpf_relay.c is proved to follow.
module Reassembly {

  const TWO_32: int := 0x1_0000_0000
  const TWO_31: int := 0x8000_0000

  type uint32 = x: int | 0 <= x < TWO_32

  const OOO_MAX: nat := 128

  // The sequence number of stream offset o, when offset 0 has number isn.
  function SeqOf(isn: uint32, o: nat): uint32 {
    (isn + o) % TWO_32
  }

  function OffsetOf(isn: uint32, s: uint32): nat {
    (s - isn) % TWO_32
  }

  // SEQ_GT: the difference modulo 2^32, read as a signed 32-bit number.
  function ToInt32(x: uint32): int {
    if x < TWO_31 then x else x - TWO_32
  }

  predicate SeqGt(a: uint32, b: uint32) {
    ToInt32((a - b) % TWO_32) > 0
  }

  lemma {:induction false} OffsetRoundTrip(isn: uint32, o: nat)
    requires o < TWO_32
    ensures OffsetOf(isn, SeqOf(isn, o)) == o
  {
    if isn + o >= TWO_32 {
      assert (isn + o) % TWO_32 == isn + o - TWO_32;
      assert (o - TWO_32) % TWO_32 == o;
    }
  }

  lemma {:induction false} SeqRoundTrip(isn: uint32, s: uint32)
    ensures SeqOf(isn, OffsetOf(isn, s)) == s
  {
    if s < isn {
      assert (s - isn) % TWO_32 == s - isn + TWO_32;
    }
  }

  // The comparison of sequence numbers is the comparison of offsets exactly
  // when the offsets are less than 2^31 apart, in the direction compared.
  lemma {:induction false} SeqGtIsGreater(isn: uint32, a: nat, b: nat)
    requires a < TWO_32 && b < TWO_32
    ensures SeqGt(SeqOf(isn, a), SeqOf(isn, b)) <==> 0 < a - b < TWO_31 || a - b < -TWO_31
  {
    var d := (SeqOf(isn, a) - SeqOf(isn, b)) % TWO_32;
    ModDifference(isn + a, isn + b);
    if a >= b {
      assert d == a - b;
    } else {
      assert d == a - b + TWO_32;
    }
  }

  lemma {:induction false} ModDifference(x: nat, y: nat)
    ensures (x % TWO_32 - y % TWO_32) % TWO_32 == (x - y) % TWO_32
  {
    var p, q := x / TWO_32, y / TWO_32;
    assert x - y == (x % TWO_32 - y % TWO_32) + (p - q) * TWO_32;
    ModShift(x % TWO_32 - y % TWO_32, p - q);
  }

  lemma {:induction false} ModShift(x: int, k: int)
    ensures (x + k * TWO_32) % TWO_32 == x % TWO_32
    decreases if k < 0 then -k else k
  {
    if k > 0 {
      ModShift(x, k - 1);
      assert x + k * TWO_32 == (x + (k - 1) * TWO_32) + TWO_32;
    } else if k < 0 {
      ModShift(x, k + 1);
      assert x + k * TWO_32 == (x + (k + 1) * TWO_32) - TWO_32;
    }
  }

  // ------------------------------------------------------ reference reassembly

  // next: the first offset not yet passed on; pending: the segments kept for
  // later, by their first offset, with their length.
  datatype State = State(started: bool, base: nat, next: nat, pending: map<nat, nat>)

  function Drain(next: nat, pending: map<nat, nat>): (r: (nat, map<nat, nat>))
    ensures r.0 >= next && r.0 !in r.1 && r.1.Keys <= pending.Keys
    ensures forall o <- r.1 :: r.1[o] == pending[o]
    decreases |pending|
  {
    if next in pending then
      assert |pending - {next}| < |pending| by { Smaller(pending, next); }
      Drain(next + pending[next], pending - {next})
    else (next, pending)
  }

  lemma {:induction false} Smaller(m: map<nat, nat>, k: nat)
    requires k in m
    ensures |m - {k}| == |m| - 1
  {
    assert (m - {k}).Keys == m.Keys - {k};
    assert |m.Keys - {k}| == |m.Keys| - 1;
    assert |(m - {k}).Keys| == |m - {k}| && |m.Keys| == |m|;
  }

  function Advance(s: State, end: nat): State {
    var (next, pending) := Drain(end, s.pending);
    State(true, s.base, next, pending)
  }

  // A segment of the given length at offset o arrives.
  function Arrive(s0: State, o: nat, len: nat): State {
    var s := if s0.started then s0 else State(true, o, o, s0.pending);
    if o == s.next then Advance(s, o + len)
    else if o > s.next then
      if o in s.pending then s
      else if |s.pending| >= OOO_MAX then State(false, s.base, s.next, map[])
      else s.(pending := s.pending[o := len])
    else if o + len > s.next then Advance(s, o + len)
    else s
  }

  // Nothing goes back: within an epoch the frontier only moves on.
  lemma {:induction false} ArriveMovesOn(s: State, o: nat, len: nat)
    requires s.started && Arrive(s, o, len).started
    ensures Arrive(s, o, len).base == s.base && Arrive(s, o, len).next >= s.next
  {}

  // The pool overflows exactly when a segment is to be kept and 128 are: then all
  // of them are given up, and the next segment begins anew wherever it starts.
  lemma {:induction false} OverflowsWhen(s: State, o: nat, len: nat)
    requires s.started
    ensures !Arrive(s, o, len).started <==> o > s.next && o !in s.pending && |s.pending| >= 128
    ensures !Arrive(s, o, len).started ==> Arrive(s, o, len).pending == map[]
    ensures forall p: nat, l: nat :: !Arrive(s, o, len).started && l > 0 ==>
      Arrive(Arrive(s, o, len), p, l) == State(true, p, p + l, map[])
  {}

  // --------------------------------------------------- runs of any segments

  datatype Segment = Segment(o: nat, len: nat)

  const Fresh: State := State(false, 0, 0, map[])

  function Feed(run: seq<Segment>): State {
    if run == [] then Fresh
    else
      var n := |run| - 1;
      Arrive(Feed(run[..n]), run[n].o, run[n].len)
  }

  // The pool did not overflow at any arrival.
  ghost predicate NeverFull(run: seq<Segment>) {
    run != [] ==> Feed(run).started && NeverFull(run[..|run| - 1])
  }

  // A segment is dropped if one that starts at the same offset is kept already,
  // even a shorter one.
  predicate IsDropped(s: State, g: Segment) {
    s.started && g.o > s.next && g.o in s.pending && s.pending[g.o] < g.len
  }

  function Dropped(run: seq<Segment>): set<Segment> {
    if run == [] then {}
    else
      var n := |run| - 1;
      Dropped(run[..n]) + if IsDropped(Feed(run[..n]), run[n]) then {run[n]} else {}
  }

  // Byte x has arrived.
  ghost predicate Arrived(run: seq<Segment>, x: nat) {
    exists g <- run :: g.o <= x < g.o + g.len
  }

  // Offset x lies strictly inside a kept segment.
  ghost predicate Inside(x: nat, p: map<nat, nat>) {
    exists a <- p :: a < x < a + p[a]
  }

  // The frontier lies inside a segment that is kept: the test that the merge
  // loop, which looks for segments that start at the frontier, does not make.
  ghost predicate Straddled(s: State) {
    Inside(s.next, s.pending)
  }

  ghost predicate DropStraddled(run: seq<Segment>, next: nat) {
    exists g <- Dropped(run) :: g.o < next < g.o + g.len
  }

  // Byte x has arrived in a segment that ends at or before the frontier.
  ghost predicate PassedOn(run: seq<Segment>, next: nat, x: nat) {
    exists g <- run :: g.o <= x < g.o + g.len <= next
  }

  ghost predicate AllPassedOn(run: seq<Segment>, s: State) {
    s.base <= s.next && forall x :: s.base <= x < s.next ==> PassedOn(run, s.next, x)
  }

  ghost predicate Settled(s: State, dropped: set<Segment>, g: Segment) {
    g.o + g.len <= s.next || (g.o in s.pending && s.pending[g.o] >= g.len) || g in dropped
  }

  // What is passed on, kept or dropped has arrived; what has arrived was passed
  // on, is kept, or was dropped for a shorter segment.
  ghost predicate Accounted(run: seq<Segment>, dropped: set<Segment>, s: State) {
    && s.started && AllPassedOn(run, s)
    && (forall a <- s.pending :: a != s.next && s.pending[a] > 0 && Segment(a, s.pending[a]) in run)
    && (forall g <- dropped :: g in run && (g.o in s.pending || g.o < s.next))
    && (forall g <- run :: Settled(s, dropped, g))
  }

  // What a drain takes out ends at or before the frontier it reaches.
  lemma {:induction false} DrainTakes(next: nat, p: map<nat, nat>, k: nat)
    requires k in p
    ensures k !in Drain(next, p).1 ==> next <= k && k + p[k] <= Drain(next, p).0
    decreases |p|
  {
    if next in p {
      Smaller(p, next);
      if k != next { DrainTakes(next + p[next], p - {next}, k); }
    }
  }

  // Every byte that a drain passes on is one of a kept segment.
  lemma {:induction false} DrainPasses(next: nat, p: map<nat, nat>, x: nat) returns (k: nat)
    requires next <= x < Drain(next, p).0
    ensures k in p && k <= x < k + p[k] <= Drain(next, p).0
    decreases |p|
  {
    Smaller(p, next);
    if x < next + p[next] {
      k := next;
    } else {
      k := DrainPasses(next + p[next], p - {next}, x);
    }
  }

  lemma {:induction false} PassedOnStays(run: seq<Segment>, g: Segment, next: nat, next': nat, x: nat)
    requires PassedOn(run, next, x) && next <= next'
    ensures PassedOn(run + [g], next', x)
  {
    var h :| h in run && h.o <= x < h.o + h.len <= next;
    assert h in run + [g];
  }

  // A segment moves the frontier to its end, or further by what is kept.
  lemma {:induction false} AdvanceAccounts(run: seq<Segment>, dropped: set<Segment>, s: State, g: Segment)
    requires Accounted(run, dropped, s) && g.o <= s.next < g.o + g.len
    ensures Accounted(run + [g], dropped, Advance(s, g.o + g.len))
  {
    var end := g.o + g.len;
    var r := Advance(s, end);
    AdvancePasses(run, s, g);
    forall k | k in s.pending ensures k !in r.pending ==> end <= k && k + s.pending[k] <= r.next {
      DrainTakes(end, s.pending, k);
    }
    hide Advance, AllPassedOn;
    forall h | h in run + [g] ensures Settled(r, dropped, h) {
      if h in run { assert Settled(s, dropped, h); }
    }
  }

  lemma {:induction false} AdvancePasses(run: seq<Segment>, s: State, g: Segment)
    requires AllPassedOn(run, s) && g.o <= s.next < g.o + g.len
    requires forall a <- s.pending :: Segment(a, s.pending[a]) in run
    ensures var r := Advance(s, g.o + g.len);
      && r.started && r.base == s.base && AllPassedOn(run + [g], r)
      && r.pending.Keys <= s.pending.Keys && r.next !in r.pending && r.next >= g.o + g.len
      && forall k <- r.pending :: r.pending[k] == s.pending[k]
  {
    var end := g.o + g.len;
    var r := Advance(s, end);
    forall x | s.base <= x < r.next ensures PassedOn(run + [g], r.next, x) {
      if x < s.next {
        PassedOnStays(run, g, s.next, r.next, x);
      } else if x < end {
        assert g in run + [g];
      } else {
        var k := DrainPasses(end, s.pending, x);
        assert Segment(k, s.pending[k]) in run + [g];
      }
    }
  }

  // One that does not is old, kept, or dropped.
  lemma {:induction false} OtherAccounts(run: seq<Segment>, dropped: set<Segment>, s: State, g: Segment)
    requires Accounted(run, dropped, s) && g.len > 0 && !(g.o <= s.next < g.o + g.len)
    requires Arrive(s, g.o, g.len).started
    ensures Accounted(run + [g], dropped + if IsDropped(s, g) then {g} else {}, Arrive(s, g.o, g.len))
  {
    var r, all := Arrive(s, g.o, g.len), dropped + if IsDropped(s, g) then {g} else {};
    OtherKeeps(s, g);
    forall x | s.base <= x < s.next ensures PassedOn(run + [g], s.next, x) { PassedOnStays(run, g, s.next, s.next, x); }
    hide PassedOn, Arrive;
    forall h | h in run + [g] ensures Settled(r, all, h) {
      if h in run { assert Settled(s, dropped, h); }
    }
  }

  lemma {:induction false} OtherKeeps(s: State, g: Segment)
    requires s.started && g.len > 0 && !(g.o <= s.next < g.o + g.len)
    requires Arrive(s, g.o, g.len).started
    ensures var r := Arrive(s, g.o, g.len);
      && r.next == s.next && r.base == s.base && s.pending.Keys <= r.pending.Keys
      && (forall a <- r.pending :: if a in s.pending then r.pending[a] == s.pending[a] else a == g.o > s.next && r.pending[a] == g.len)
      && (g.o > s.next ==> g.o in r.pending)
  {
    hide Advance;
  }

  lemma {:induction false} StepAccounts(run: seq<Segment>, dropped: set<Segment>, s: State, g: Segment)
    requires Accounted(run, dropped, s) && g.len > 0 && Arrive(s, g.o, g.len).started
    ensures Accounted(run + [g], dropped + if IsDropped(s, g) then {g} else {}, Arrive(s, g.o, g.len))
  {
    if g.o <= s.next < g.o + g.len {
      AdvanceAccounts(run, dropped, s, g);
      assert s.started && !IsDropped(s, g) && dropped + {} == dropped;
      hide Accounted, Advance;
    } else {
      OtherAccounts(run, dropped, s, g);
    }
  }

  lemma {:induction false} FirstAccounts(g: Segment)
    requires g.len > 0
    ensures Accounted([g], {}, Arrive(Fresh, g.o, g.len)) && Arrive(Fresh, g.o, g.len).base == g.o
  {
    var s := State(true, g.o, g.o, map[]);
    assert Accounted([], {}, s);
    assert [] + [g] == [g];
    AdvanceAccounts([], {}, s, g);
  }

  lemma {:induction false} RunAccounts(run: seq<Segment>)
    requires run != [] && NeverFull(run) && forall g <- run :: g.len > 0
    ensures Feed(run).base == run[0].o && Accounted(run, Dropped(run), Feed(run))
  {
    var n := |run| - 1;
    var before, g := run[..n], run[n];
    assert run == before + [g];
    hide Accounted, IsDropped, Arrive;
    if n == 0 {
      FirstAccounts(g);
      FirstKept(run);
    } else {
      RunAccounts(before);
      Started(before, Dropped(before), Feed(before));
      ArriveMovesOn(Feed(before), g.o, g.len);
      StepAccounts(before, Dropped(before), Feed(before), g);
    }
  }

  lemma {:induction false} FirstKept(run: seq<Segment>)
    requires |run| == 1
    ensures Dropped(run) == {} && Feed(run) == Arrive(Fresh, run[0].o, run[0].len)
  {
    assert run[..0] == [];
  }

  lemma {:induction false} Started(run: seq<Segment>, dropped: set<Segment>, s: State)
    requires Accounted(run, dropped, s)
    ensures s.started
  {}

  // Segments in any order, of any cut and as often as one likes, without
  // overflow: what is passed on has arrived, from the first arrival on; and it
  // reaches the first byte that has not arrived if and only if the frontier lies
  // inside no segment that is kept or was dropped for a shorter one.
  lemma {:induction false} AnyOrderReassembles(run: seq<Segment>)
    requires run != [] && NeverFull(run) && forall g <- run :: g.len > 0
    ensures var s := Feed(run);
      && s.base == run[0].o && s.base <= s.next && (forall x :: s.base <= x < s.next ==> Arrived(run, x))
      && (!Arrived(run, s.next) <==> !Straddled(s) && !DropStraddled(run, s.next))
  {
    RunAccounts(run);
    var s := Feed(run);
    hide Feed, Dropped;
    forall x | s.base <= x < s.next ensures Arrived(run, x) {
      assert PassedOn(run, s.next, x);
    }
    if Arrived(run, s.next) {
      var g :| g in run && g.o <= s.next < g.o + g.len;
      assert Settled(s, Dropped(run), g);
    }
  }

  // ------------------------------------------------ when nothing is straddled

  // Segments that are cut at the same places whenever they are sent.
  ghost predicate Aligned(run: seq<Segment>) {
    forall g <- run, h <- run :: (g.o < h.o ==> g.o + g.len <= h.o) && (g.o == h.o ==> g == h)
  }

  // Then everything is passed on up to the first byte that has not arrived.
  lemma {:induction false} AlignedReassemble(run: seq<Segment>)
    requires run != [] && NeverFull(run) && Aligned(run) && forall g <- run :: g.len > 0
    ensures !Arrived(run, Feed(run).next)
  {
    RunAccounts(run);
    AnyOrderReassembles(run);
    NoneDropped(run);
    var s := Feed(run);
    hide Feed, Dropped;
    forall a | a in s.pending ensures !(a < s.next < a + s.pending[a]) {
      var h := Segment(a, s.pending[a]);
      assert h in run && run[0] in run;
      if a < s.next && s.next > s.base {
        assert PassedOn(run, s.next, s.next - 1);
        var g :| g in run && g.o <= s.next - 1 < g.o + g.len <= s.next;
      }
    }
  }

  lemma {:induction false} NoneDropped(run: seq<Segment>)
    requires NeverFull(run) && Aligned(run) && forall g <- run :: g.len > 0
    ensures Dropped(run) == {}
  {
    if run != [] {
      var n := |run| - 1;
      NoneDropped(run[..n]);
      var s, g := Feed(run[..n]), run[n];
      if n > 0 {
        RunAccounts(run[..n]);
        assert g.o in s.pending ==> Segment(g.o, s.pending[g.o]) in run;
      }
    }
  }

  // No kept segment ends strictly inside another.
  ghost predicate Tidy(p: map<nat, nat>) {
    forall a <- p, b <- p :: !(a < b + p[b] < a + p[a])
  }

  lemma {:induction false} DrainEnds(next: nat, p: map<nat, nat>)
    requires next in p
    ensures exists b <- p :: Drain(next, p).0 == b + p[b]
    decreases |p|
  {
    Smaller(p, next);
    var q := next + p[next];
    if q in p - {next} {
      DrainEnds(q, p - {next});
      var b :| b in p - {next} && Drain(q, p - {next}).0 == b + (p - {next})[b];
      assert Drain(next, p).0 == b + p[b];
    } else {
      assert next in p && Drain(next, p).0 == Drain(q, p - {next}).0 == q == next + p[next];
    }
  }

  // Where the frontier goes when a segment arrives.
  function Reaches(s: State, g: Segment): nat {
    if g.o <= s.next < g.o + g.len then Drain(g.o + g.len, s.pending).0 else s.next
  }

  // One arrival after any run, as can be told beforehand: the frontier that it
  // leaves is short of the first missing byte exactly if it lies inside a segment
  // that is kept now or was dropped before.
  lemma {:induction false} WhenBytesAreLost(run: seq<Segment>, g: Segment)
    requires run != [] && NeverFull(run + [g]) && g.len > 0 && forall h <- run :: h.len > 0
    ensures Feed(run + [g]).next == Reaches(Feed(run), g)
    ensures Arrived(run + [g], Reaches(Feed(run), g)) <==>
      Inside(Reaches(Feed(run), g), Feed(run).pending) || DropStraddled(run, Reaches(Feed(run), g))
  {
    hide Feed, Dropped, NeverFull, Arrived, Arrive, Inside, Reaches, DropStraddled, IsDropped, Accounted;
    FeedMore(run, g);
    AnyOrderReassembles(run + [g]);
    RunAccounts(run);
    Started(run, Dropped(run), Feed(run));
    ArriveReaches(Feed(run), g);
    DropMore(run, g, Reaches(Feed(run), g));
    assert (run + [g])[0] == run[0];
  }

  lemma {:induction false} ArriveReaches(s: State, g: Segment)
    requires s.started && g.len > 0 && Arrive(s, g.o, g.len).started
    ensures Arrive(s, g.o, g.len).next == Reaches(s, g)
    ensures Straddled(Arrive(s, g.o, g.len)) <==> Inside(Reaches(s, g), s.pending)
    ensures IsDropped(s, g) ==> g.o > Reaches(s, g)
  {
    hide Inside, Drain;
    if g.o <= s.next < g.o + g.len {
      DrainedLieBefore(s.pending, g.o + g.len);
    } else {
      OtherKeeps(s, g);
      OtherInside(s, g);
    }
  }

  lemma {:induction false} DropMore(run: seq<Segment>, g: Segment, x: nat)
    requires IsDropped(Feed(run), g) ==> g.o > x
    ensures DropStraddled(run + [g], x) <==> DropStraddled(run, x)
  {
    FeedMore(run, g);
    hide Feed, Dropped, IsDropped;
    assert forall h <- Dropped(run) :: h in Dropped(run + [g]);
  }

  lemma {:induction false} DrainedLieBefore(p: map<nat, nat>, end: nat)
    ensures var (n, q) := Drain(end, p);
      Inside(n, q) <==> Inside(n, p)
  {
    var (n, q) := Drain(end, p);
    forall a | a in p && a < n < a + p[a] ensures a in q && q[a] == p[a] { DrainTakes(end, p, a); }
    assert forall a <- q :: a in p && q[a] == p[a];
  }

  lemma {:induction false} OtherInside(s: State, g: Segment)
    requires s.started && g.len > 0 && !(g.o <= s.next < g.o + g.len)
    requires Arrive(s, g.o, g.len).started
    ensures Inside(s.next, Arrive(s, g.o, g.len).pending) <==> Inside(s.next, s.pending)
  {
    OtherKeeps(s, g);
    hide Arrive;
    var r := Arrive(s, g.o, g.len);
    assert forall a <- s.pending :: a in r.pending && r.pending[a] == s.pending[a];
    if Inside(s.next, r.pending) {
      var a :| a in r.pending && a < s.next < a + r.pending[a];
      assert a in s.pending;
    }
  }

  // If the kept segments are tidy and the frontier is inside none, no draining is
  // needed to tell: an arrival puts it inside one exactly if it moves it to a
  // place inside one at which no other starts.
  lemma {:induction false} WhenItStraddles(s: State, g: Segment)
    requires s.started && !Straddled(s) && Tidy(s.pending) && g.len > 0 && Arrive(s, g.o, g.len).started
    ensures Straddled(Arrive(s, g.o, g.len)) <==>
      var end := g.o + g.len;
      g.o <= s.next < end && end !in s.pending && Inside(end, s.pending)
  {
    hide Advance, Straddled, Tidy;
    if g.o <= s.next < g.o + g.len {
      AdvanceStraddles(s, g.o + g.len);
    } else {
      OtherStraddlesNot(s, g);
    }
  }

  lemma {:induction false} OtherStraddlesNot(s: State, g: Segment)
    requires s.started && !Straddled(s) && g.len > 0 && !(g.o <= s.next < g.o + g.len)
    requires Arrive(s, g.o, g.len).started
    ensures !Straddled(Arrive(s, g.o, g.len))
  {
    OtherKeeps(s, g);
    hide Arrive;
    var r := Arrive(s, g.o, g.len);
    forall a | a in r.pending ensures !(a < r.next < a + r.pending[a]) {
      if a in s.pending { assert !(a < s.next < a + s.pending[a]); }
    }
  }

  lemma {:induction false} AdvanceStraddles(s: State, end: nat)
    requires Tidy(s.pending)
    ensures Straddled(Advance(s, end)) <==> end !in s.pending && Inside(end, s.pending)
  {
    DrainStraddles(s.pending, end);
    hide Drain, Tidy, Inside;
  }

  lemma {:induction false} DrainStraddles(p: map<nat, nat>, end: nat)
    requires Tidy(p)
    ensures Inside(Drain(end, p).0, Drain(end, p).1) <==> end !in p && Inside(end, p)
  {
    if end in p {
      DrainEnds(end, p);
      hide Drain;
      var n, q := Drain(end, p).0, Drain(end, p).1;
      var b :| b in p && n == b + p[b];
      forall a | a in q ensures !(a < n < a + q[a]) { assert a in p && q[a] == p[a] && !(a < b + p[b] < a + p[a]); }
    } else {
      assert Drain(end, p) == (end, p);
    }
  }

  lemma {:induction false} FeedMore(run: seq<Segment>, g: Segment)
    ensures Feed(run + [g]) == Arrive(Feed(run), g.o, g.len)
    ensures NeverFull(run + [g]) <==> NeverFull(run) && Feed(run + [g]).started
    ensures Dropped(run + [g]) == Dropped(run) + if IsDropped(Feed(run), g) then {g} else {}
  {
    assert (run + [g])[..|run|] == run;
  }

  // In a pool that is not tidy that does not tell: 10 is kept and 15 lies inside
  // the segment kept at 12.
  lemma {:induction false} UntidyStraddles()
    ensures var s := State(true, 0, 5, map[10 := 5, 12 := 10]);
      !Straddled(s) && !Tidy(s.pending) && 10 in s.pending && Straddled(Arrive(s, 5, 5))
  {
    var p := map[10 := 5, 12 := 10];
    Smaller(p, 10);
    assert 12 in p && 10 in p && 10 < 15 < 22;
    assert Drain(15, p - {10}) == (15, p - {10});
    assert Drain(10, p) == (15, p - {10});
    assert 12 in p - {10};
  }

  // Bytes 0 to 19 have arrived and 15 are passed on: the kept segment was
  // overtaken.
  lemma {:induction false} OvertakenBytesAreLost()
    ensures var run := [Segment(0, 5), Segment(10, 10), Segment(5, 10)];
      NeverFull(run) && Feed(run).next == 15 && Straddled(Feed(run)) && Arrived(run, 15)
  {
    hide Feed, Dropped, NeverFull, Arrive, IsDropped;
    var b, c := Segment(10, 10), Segment(5, 10);
    var run := OneKept(10);
    FeedMore(run, c);
    Overtakes();
    assert Feed(run + [c]) == State(true, 0, 15, map[10 := 10]);
    var all := [Segment(0, 5), b, c];
    assert run + [c] == all && b in all && Arrived(all, 15);
    assert 10 in map[10 := 10] && Inside(15, map[10 := 10]);
  }

  lemma {:induction false} Overtakes()
    ensures Arrive(State(true, 0, 5, map[10 := 10]), 5, 10) == State(true, 0, 15, map[10 := 10])
  {}

  lemma {:induction false} OneKept(len: nat) returns (run: seq<Segment>)
    requires len > 0
    ensures run == [Segment(0, 5), Segment(10, len)]
    ensures NeverFull(run) && Feed(run) == State(true, 0, 5, map[10 := len])
  {
    var a, b := Segment(0, 5), Segment(10, len);
    FeedMore([], a);
    FeedMore([a], b);
    assert [] + [a] == [a] && [a] + [b] == [a, b];
    assert Feed([a]) == State(true, 0, 5, map[]);
    run := [a, b];
  }

  // The same, where of two segments that start at 10 the longer came second.
  lemma {:induction false} DroppedBytesAreLost()
    ensures var run := [Segment(0, 5), Segment(10, 5), Segment(10, 10), Segment(5, 5)];
      NeverFull(run) && Feed(run).next == 15 && !Straddled(Feed(run)) && DropStraddled(run, 15) && Arrived(run, 15)
  {
    hide Feed, Dropped, NeverFull, Arrive, IsDropped;
    var c, d := Segment(10, 10), Segment(5, 5);
    var run := KeptThenLonger();
    FeedMore(run, d);
    FillsTheGap();
    assert Feed(run + [d]) == State(true, 0, 15, map[]);
    assert c in run + [d] && c in Dropped(run + [d]);
    assert run + [d] == [Segment(0, 5), Segment(10, 5), c, d];
  }

  lemma {:induction false} FillsTheGap()
    ensures Arrive(State(true, 0, 5, map[10 := 5]), 5, 5) == State(true, 0, 15, map[])
  {
    assert map[10 := 5] - {10} == map[];
  }

  lemma {:induction false} KeptThenLonger() returns (run: seq<Segment>)
    ensures run == [Segment(0, 5), Segment(10, 5), Segment(10, 10)]
    ensures NeverFull(run) && Feed(run) == State(true, 0, 5, map[10 := 5]) && Segment(10, 10) in Dropped(run)
  {
    var c := Segment(10, 10);
    var two := OneKept(5);
    FeedMore(two, c);
    run := two + [c];
    hide Feed, NeverFull, Dropped;
    assert run == [Segment(0, 5), Segment(10, 5), c];
  }

  // Whether a segment that is kept leaves the kept ones tidy, again before it is
  // sent.
  lemma {:induction false} StaysTidy(s: State, g: Segment)
    requires s.started && Tidy(s.pending) && g.len > 0 && Arrive(s, g.o, g.len).started
    ensures Tidy(Arrive(s, g.o, g.len).pending) <==>
      (g.o > s.next && g.o !in s.pending ==>
         forall a <- s.pending :: !(a < g.o + g.len < a + s.pending[a]) && !(g.o < a + s.pending[a] < g.o + g.len))
  {
    var r := Arrive(s, g.o, g.len);
    if g.o > s.next && g.o !in s.pending {
      assert r.pending == s.pending[g.o := g.len];
      if Tidy(r.pending) {
        forall a | a in s.pending
          ensures !(a < g.o + g.len < a + s.pending[a]) && !(g.o < a + s.pending[a] < g.o + g.len)
        {
          assert a in r.pending && g.o in r.pending;
        }
      }
    }
  }

  // A kept segment that the frontier has passed is never merged.
  lemma {:induction false} OvertakenStaysPending(s: State, o: nat, len: nat, a: nat)
    requires s.started && Arrive(s, o, len).started && a in s.pending && a < s.next
    ensures a in Arrive(s, o, len).pending && a < Arrive(s, o, len).next
  {
    if o == s.next || (o < s.next && o + len > s.next) {
      DrainTakes(o + len, s.pending, a);
    }
  }
}
