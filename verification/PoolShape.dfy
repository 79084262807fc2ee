// What the memory of a pool looks like, on plain values: linked lists threaded
// through memory words, and the chunks of 64 KiB blocks (mempool.c).
module PoolShape {

  const BLOCK: nat := 65536
  const HEADER: nat := 40

  function BlockOf(p: int): int {
    p - p % BLOCK
  }

  // Rounded up to a multiple of 8.
  function ChunkSize(userSize: nat): nat {
    (userSize + 7) - (userSize + 7) % 8
  }

  function Capacity(cs: nat): nat
    requires cs > 0
  {
    (BLOCK - HEADER) / cs
  }

  function Chunk(b: int, cs: nat, k: nat): int {
    b + HEADER + k * cs
  }

  lemma {:induction false} ChunkInBlock(b: int, cs: nat, k: nat)
    requires b % BLOCK == 0 && 0 < cs && k < Capacity(cs)
    ensures b + HEADER <= Chunk(b, cs, k) && Chunk(b, cs, k) + cs <= b + BLOCK
    ensures BlockOf(Chunk(b, cs, k)) == b
    ensures cs % 8 == 0 ==> Chunk(b, cs, k) % 8 == 0
  {
    ChunkFits(cs, k);
    var r := HEADER + k * cs;
    assert Chunk(b, cs, k) == b + r;
    assert BlockOf(b + r) == b by { Multiple(b, r); }
    if cs % 8 == 0 {
      Eights(k, cs);
      EightAligned(b, k * cs);
    }
  }

  // As many chunks as fit behind the header, and no fewer.
  lemma {:induction false} CapacityFills(cs: nat)
    requires cs > 0
    ensures HEADER + Capacity(cs) * cs <= BLOCK < HEADER + (Capacity(cs) + 1) * cs
    ensures cs <= BLOCK - HEADER ==> Capacity(cs) > 0
  {
    var n := BLOCK - HEADER;
    assert n == Capacity(cs) * cs + n % cs;
    assert (Capacity(cs) + 1) * cs == Capacity(cs) * cs + cs;
  }

  lemma {:induction false} NewBump(cs: nat, b: int)
    requires cs > 0
    ensures var first := b + HEADER;
      first == b + 40 && first + Capacity(cs) * cs <= b + 65536 < first + (Capacity(cs) + 1) * cs
  {
    CapacityFills(cs);
  }

  lemma {:induction false} FitsInside(cs: nat, k: nat)
    requires cs > 0 && HEADER + (k + 1) * cs <= BLOCK
    ensures k < Capacity(cs)
  {
    CapacityFills(cs);
    Product(1, k + 1, cs);
    if k >= Capacity(cs) { Product(Capacity(cs) + 1, k + 1, cs); }
  }

  lemma {:induction false} EightAligned(b: int, q: int)
    requires b % BLOCK == 0 && q % 8 == 0
    ensures (b + HEADER + q) % 8 == 0
  {
    assert b == BLOCK * (b / BLOCK);
  }

  lemma {:induction false} ChunkFits(cs: nat, k: nat)
    requires 0 < cs && k < Capacity(cs)
    ensures 0 <= k * cs && HEADER + k * cs + cs <= BLOCK
  {
    Product(k + 1, Capacity(cs), cs);
    assert (k + 1) * cs == k * cs + cs;
  }

  lemma {:induction false} Product(a: nat, c: nat, x: nat)
    requires a <= c
    ensures a * x <= c * x
  {
    assert c * x == a * x + (c - a) * x;
  }

  lemma {:induction false} Multiple(b: int, r: nat)
    requires b % BLOCK == 0 && r < BLOCK
    ensures (b + r) % BLOCK == r
  {}

  lemma {:induction false} Eights(k: nat, cs: nat)
    requires cs % 8 == 0
    ensures (k * cs) % 8 == 0
    decreases k
  {
    if k > 0 {
      Eights(k - 1, cs);
      assert k * cs == (k - 1) * cs + cs;
    }
  }

  lemma {:induction false} ChunksApart(b: int, cs: nat, j: nat, k: nat)
    requires j < k
    ensures Chunk(b, cs, j) + cs <= Chunk(b, cs, k)
  {
    Product(j + 1, k, cs);
  }

  lemma {:induction false} NextChunk(b: int, cs: nat, k: nat)
    ensures Chunk(b, cs, k) + cs == Chunk(b, cs, k + 1)
  {
    assert (k + 1) * cs == k * cs + cs;
  }

  // ---------------------------------------------------------- linked lists

  function At(s: seq<int>, i: nat): int {
    if i < |s| then s[i] else 0
  }

  ghost predicate Distinct(s: seq<int>) {
    forall i, j :: 0 <= i < j < |s| ==> s[i] != s[j]
  }

  // s is the list that starts at first and goes on through next, up to 0.
  ghost predicate Linked(next: map<int, int>, first: int, s: seq<int>) {
    && Distinct(s) && first == At(s, 0)
    && forall i :: 0 <= i < |s| ==> s[i] > 0 && s[i] in next && next[s[i]] == At(s, i + 1)
  }

  lemma {:induction false} Push(next: map<int, int>, first: int, s: seq<int>, x: int)
    requires Linked(next, first, s) && x > 0 && x !in s
    ensures Linked(next[x := first], x, [x] + s)
  {
    var t := [x] + s;
    forall i | 0 <= i < |t| ensures t[i] > 0 && t[i] in next[x := first] && next[x := first][t[i]] == At(t, i + 1) {
      if i > 0 { assert t[i] == s[i - 1]; }
    }
  }

  lemma {:induction false} Pop(next: map<int, int>, first: int, s: seq<int>)
    requires Linked(next, first, s) && first != 0
    ensures s != [] && first == s[0] && first > 0 && first in next && first !in s[1..] && Linked(next, next[first], s[1..])
  {}

  lemma {:induction false} NextIs(next: map<int, int>, first: int, s: seq<int>, i: nat)
    requires Linked(next, first, s) && At(s, i) != 0
    ensures i < |s| && s[i] in next && next[s[i]] == At(s, i + 1)
  {}

  lemma {:induction false} EndIs(next: map<int, int>, first: int, s: seq<int>, i: nat)
    requires Linked(next, first, s) && i <= |s|
    ensures At(s, 0) == first && (At(s, i) == 0 <==> i == |s|)
  {}

  function Last(s: seq<int>): int {
    if s == [] then 0 else s[|s| - 1]
  }

  // In the middle of a list: what comes before and what comes next.
  lemma {:induction false} SplitAt(next: map<int, int>, first: int, a: seq<int>, b: seq<int>)
    requires Linked(next, first, a + b) && b != []
    ensures b[0] in next && next[b[0]] == At(b[1..], 0)
    ensures At(b[1..], 0) == 0 ==> b[1..] == []
    ensures (a + b)[|a|] == b[0] && (a + b)[..|a|] == a && At(a + b, |a| + 1) == At(b[1..], 0)
    ensures a + b == (a + [b[0]]) + b[1..]
  {
    assert (a + b)[|a|] == b[0];
    if |b| > 1 { assert (a + b)[|a| + 1] == b[1]; }
  }

  lemma {:induction false} Elsewhere(next: map<int, int>, first: int, s: seq<int>, x: int, v: int)
    requires Linked(next, first, s) && x !in s
    ensures Linked(next[x := v], first, s)
  {}

  function Removed(s: seq<int>, i: nat): seq<int>
    requires i < |s|
  {
    s[..i] + s[i + 1..]
  }

  lemma {:induction false} RemovedAt(s: seq<int>, i: nat, j: nat)
    requires i < |s| && j < |s|
    ensures |Removed(s, i)| == |s| - 1
    ensures At(Removed(s, i), j) == At(s, if j < i then j else j + 1)
  {}

  lemma {:induction false} RemovedDistinct(s: seq<int>, i: nat)
    requires i < |s| && Distinct(s)
    ensures Distinct(Removed(s, i))
  {}

  lemma {:induction false} RemovedHas(s: seq<int>, i: nat)
    requires i < |s| && Distinct(s)
    ensures forall x :: x in Removed(s, i) <==> x in s && x != s[i]
  {
    forall x ensures x in Removed(s, i) <==> x in s && x != s[i] {
      if x in s && x != s[i] {
        var j :| 0 <= j < |s| && s[j] == x;
        assert Removed(s, i)[if j < i then j else j - 1] == x;
      }
    }
  }

  lemma {:induction false} RemovedMiddle(a: seq<int>, b: seq<int>)
    requires b != []
    ensures Removed(a + b, |a|) == a + b[1..]
  {}

  // Position i taken out, by writing what came after it where it was linked.
  lemma {:induction false} Unlink(next: map<int, int>, first: int, s: seq<int>, i: nat)
    requires Linked(next, first, s) && i < |s|
    ensures At(s, i + 1) == next[s[i]]
    ensures i == 0 ==> Linked(next, At(s, 1), Removed(s, i))
    ensures i > 0 ==> Linked(next[s[i - 1] := At(s, i + 1)], first, Removed(s, i))
  {
    hide Removed, Distinct, At;
    RemovedDistinct(s, i);
    RemovedAt(s, i, 0);
    AtIn(s, 0);
    var t := Removed(s, i);
    var n := if i > 0 then next[s[i - 1] := At(s, i + 1)] else next;
    forall j | 0 <= j < |t| ensures t[j] > 0 && t[j] in n && n[t[j]] == At(t, j + 1) {
      var k := if j < i then j else j + 1;
      RemovedAt(s, i, j);
      RemovedAt(s, i, j + 1);
      AtIn(t, j);
      AtIn(s, k);
      assert t[j] == s[k];
      if i > 0 && k != i - 1 { NotSame(s, k, i - 1); }
    }
  }

  lemma {:induction false} AtIn(s: seq<int>, j: nat)
    requires j < |s|
    ensures At(s, j) == s[j]
  {}

  lemma {:induction false} NotSame(s: seq<int>, i: nat, j: nat)
    requires Distinct(s) && i < |s| && j < |s| && i != j
    ensures s[i] != s[j]
  {}

  // ----------------------------------------------------- counting the chunks

  // How many of the addresses lie in block b.
  ghost function CountIn(s: seq<int>, b: int): nat {
    if s == [] then 0
    else (if BlockOf(s[0]) == b then 1 else 0) + CountIn(s[1..], b)
  }

  // Those that do not.
  ghost function Without(s: seq<int>, b: int): seq<int> {
    if s == [] then []
    else (if BlockOf(s[0]) == b then [] else [s[0]]) + Without(s[1..], b)
  }

  lemma {:induction false} WithoutCounts(s: seq<int>, b: int, c: int)
    ensures CountIn(Without(s, b), c) == if c == b then 0 else CountIn(s, c)
  {
    if s != [] {
      WithoutCounts(s[1..], b, c);
      var w := Without(s[1..], b);
      if BlockOf(s[0]) != b {
        assert Without(s, b) == [s[0]] + w && ([s[0]] + w)[1..] == w;
      } else {
        assert Without(s, b) == w;
      }
    }
  }

  lemma {:induction false} WithoutKeeps(s: seq<int>, b: int, p: int)
    ensures p in Without(s, b) <==> p in s && BlockOf(p) != b
  {
    if s != [] {
      WithoutKeeps(s[1..], b, p);
      assert s == [s[0]] + s[1..];
    }
  }

  lemma {:induction false} WithoutFirst(s: seq<int>, b: int, a: seq<int>)
    requires s != []
    ensures a + Without(s, b) == (a + if BlockOf(s[0]) == b then [] else [s[0]]) + Without(s[1..], b)
  {
    var x, w := if BlockOf(s[0]) == b then [] else [s[0]], Without(s[1..], b);
    assert Without(s, b) == x + w;
    assert a + (x + w) == (a + x) + w by { hide Without, BlockOf; }
  }

  lemma {:induction false} WithoutNothing(b: int)
    ensures Without([], b) == []
  {}

  ghost function LiveIn(live: set<int>, b: int): set<int> {
    set p | p in live && BlockOf(p) == b
  }

  // ------------------------------------------------------------ the chunks

  // The bump pointer: chunks of current from nextFree on are not carved yet.
  datatype Bump = Bump(current: int, nextFree: int, remaining: nat)

  ghost function Carved(cs: nat, bump: Bump, b: int): int
    requires cs > 0
  {
    if b == bump.current then Capacity(cs) - bump.remaining else Capacity(cs)
  }

  ghost predicate IsChunk(cs: nat, bump: Bump, p: int)
    requires cs > 0
  {
    exists k: nat :: k < Carved(cs, bump, BlockOf(p)) && p == Chunk(BlockOf(p), cs, k)
  }

  ghost predicate BumpOk(cs: nat, count: map<int, nat>, bump: Bump)
    requires cs > 0
  {
    && bump.remaining <= Capacity(cs)
    && (bump.current == 0 ==> bump.remaining == 0)
    && (bump.current != 0 ==>
          bump.current in count && bump.nextFree == Chunk(bump.current, cs, Capacity(cs) - bump.remaining))
  }

  // Conservation: in every block, what is live and what is free are carved
  // chunks of it, and together they are as many as were carved.
  ghost predicate ChunksOk(cs: nat, count: map<int, nat>, bump: Bump, live: set<int>, free: seq<int>)
    requires cs > 0
  {
    && BumpOk(cs, count, bump)
    && (forall b <- count :: BlockAddress(b))
    && (forall p <- live :: BlockOf(p) in count && IsChunk(cs, bump, p))
    && (forall p <- free :: BlockOf(p) in count && IsChunk(cs, bump, p) && p !in live)
    && (forall b <- count :: count[b] == CountIn(free, b))
    && (forall b <- count :: |LiveIn(live, b)| + count[b] == Carved(cs, bump, b))
  }

  lemma {:induction false} LiveGrows(live: set<int>, p: int, b: int)
    requires p !in live
    ensures LiveIn(live + {p}, b) == LiveIn(live, b) + if BlockOf(p) == b then {p} else {}
    ensures |LiveIn(live + {p}, b)| == |LiveIn(live, b)| + if BlockOf(p) == b then 1 else 0
  {
    assert LiveIn(live + {p}, b) == LiveIn(live, b) + if BlockOf(p) == b then {p} else {};
  }

  lemma {:induction false} TakeFree(cs: nat, count: map<int, nat>, bump: Bump, live: set<int>, free: seq<int>)
    requires cs > 0 && ChunksOk(cs, count, bump, live, free) && free != [] && free[0] !in free[1..]
    ensures var b := BlockOf(free[0]);
      b in count && count[b] > 0 && free[0] !in live &&
      ChunksOk(cs, count[b := count[b] - 1], bump, live + {free[0]}, free[1..])
  {
    hide BlockOf, IsChunk, Carved;
    var p, rest := free[0], free[1..];
    var b := BlockOf(p);
    assert count[b] == CountIn(free, b) == 1 + CountIn(rest, b);
    forall c | c in count ensures |LiveIn(live + {p}, c)| == |LiveIn(live, c)| + if c == b then 1 else 0 {
      LiveGrows(live, p, c);
    }
  }

  lemma {:induction false} GiveBack(cs: nat, count: map<int, nat>, bump: Bump, live: set<int>, free: seq<int>, p: int)
    requires cs > 0 && ChunksOk(cs, count, bump, live, free) && p in live
    ensures var b := BlockOf(p);
      b in count && p !in free && ChunksOk(cs, count[b := count[b] + 1], bump, live - {p}, [p] + free)
  {
    hide BlockOf, IsChunk, Carved, LiveIn, CountIn;
    var b := BlockOf(p);
    forall c | c in count ensures |LiveIn(live - {p}, c)| == |LiveIn(live, c)| - if c == b then 1 else 0 {
      LiveGrows(live - {p}, p, c);
      assert live - {p} + {p} == live;
    }
    forall c | c in count ensures CountIn([p] + free, c) == CountIn(free, c) + if c == b then 1 else 0 {
      CountPush(free, p, c);
    }
  }

  lemma {:induction false} CountPush(s: seq<int>, p: int, b: int)
    ensures CountIn([p] + s, b) == CountIn(s, b) + if BlockOf(p) == b then 1 else 0
  {
    assert ([p] + s)[1..] == s;
  }

  lemma {:induction false} Carve(cs: nat, count: map<int, nat>, bump: Bump, live: set<int>, free: seq<int>)
    requires cs > 0 && ChunksOk(cs, count, bump, live, free) && bump.remaining > 0
    ensures var p := bump.nextFree;
      p > 0 && p !in live && p !in free && p == Chunk(bump.current, cs, Capacity(cs) - bump.remaining) &&
      ChunksOk(cs, count, Bump(bump.current, p + cs, bump.remaining - 1), live + {p}, free)
  {
    hide BlockOf, LiveIn, CountIn;
    var p, b, n := bump.nextFree, bump.current, Capacity(cs) - bump.remaining;
    var bump' := Bump(b, p + cs, bump.remaining - 1);
    ChunkInBlock(b, cs, n);
    forall q | IsChunk(cs, bump, q) ensures q != p && IsChunk(cs, bump', q) {
      StillChunk(cs, bump, bump', q, n);
    }
    assert IsChunk(cs, bump', p) by { assert n < Carved(cs, bump', b); }
    NextChunk(b, cs, n);
    forall c | c in count ensures |LiveIn(live + {p}, c)| == |LiveIn(live, c)| + if c == b then 1 else 0 {
      LiveGrows(live, p, c);
    }
  }

  lemma {:induction false} StillChunk(cs: nat, bump: Bump, bump': Bump, q: int, n: nat)
    requires cs > 0 && IsChunk(cs, bump, q) && bump.current == bump'.current
    requires bump.current % BLOCK == 0 && n < Capacity(cs)
    requires Carved(cs, bump, bump.current) == n && Carved(cs, bump', bump.current) == n + 1
    ensures q != Chunk(bump.current, cs, n) && IsChunk(cs, bump', q)
  {
    var k: nat :| k < Carved(cs, bump, BlockOf(q)) && q == Chunk(BlockOf(q), cs, k);
    assert k < Carved(cs, bump', BlockOf(q));
    ChunkInBlock(bump.current, cs, n);
    if BlockOf(q) == bump.current { ChunksApart(bump.current, cs, k, n); }
  }

  lemma {:induction false} NewBlock(cs: nat, count: map<int, nat>, bump: Bump, live: set<int>, free: seq<int>, b: int)
    requires cs > 0 && ChunksOk(cs, count, bump, live, free) && bump.remaining == 0
    requires BlockAddress(b) && b !in count
    ensures b > 0 && ChunksOk(cs, count[b := 0], Bump(b, b + HEADER, Capacity(cs)), live, free)
  {
    var bump' := Bump(b, b + HEADER, Capacity(cs));
    forall p | IsChunk(cs, bump, p) && BlockOf(p) in count ensures IsChunk(cs, bump', p) {
      var k: nat :| k < Carved(cs, bump, BlockOf(p)) && p == Chunk(BlockOf(p), cs, k);
      assert k < Carved(cs, bump', BlockOf(p));
    }
    NoneIn(free, b);
    assert LiveIn(live, b) == {};
  }

  predicate BlockAddress(b: int) {
    b > 0 && b % BLOCK == 0
  }

  ghost predicate Headers(count: map<int, nat>, blockList: seq<int>) {
    forall b :: b in count <==> b in blockList
  }

  lemma {:induction false} OneMoreHeader(count: map<int, nat>, blockList: seq<int>, b: int)
    requires Headers(count, blockList) && b !in count
    ensures b !in blockList && Headers(count[b := 0], [b] + blockList)
  {}

  ghost predicate AllBelow(count: map<int, nat>, capacity: nat) {
    forall b <- count :: count[b] < capacity
  }

  lemma {:induction false} OneMoreBelow(count: map<int, nat>, capacity: nat, b: int)
    requires AllBelow(count, capacity) && capacity > 0
    ensures AllBelow(count[b := 0], capacity)
  {}

  lemma {:induction false} NoneIn(s: seq<int>, b: int)
    requires forall p <- s :: BlockOf(p) != b
    ensures CountIn(s, b) == 0
  {
    if s != [] { NoneIn(s[1..], b); }
  }

  ghost function FirstChunks(b: int, cs: nat, n: nat): (s: set<int>)
    ensures |s| <= n && forall k: nat :: k < n ==> Chunk(b, cs, k) in s
  {
    if n == 0 then {} else FirstChunks(b, cs, n - 1) + {Chunk(b, cs, n - 1)}
  }

  // When nothing is free and nothing left to carve, every place where a chunk
  // fits has a live one.
  lemma {:induction false} NoPlaceLeft(cs: nat, count: map<int, nat>, bump: Bump, live: set<int>, b: int, k: nat)
    requires cs > 0 && ChunksOk(cs, count, bump, live, []) && bump.remaining == 0
    requires b in count && HEADER + (k + 1) * cs <= BLOCK
    ensures Chunk(b, cs, k) in live
  {
    FitsInside(cs, k);
    var all, here := FirstChunks(b, cs, Capacity(cs)), LiveIn(live, b);
    forall p | p in here ensures p in all {
      assert IsChunk(cs, bump, p);
    }
    assert |all - here| == |all| - |here|;
    assert Chunk(b, cs, k) in all;
  }

  // A block whose free count has reached its capacity has been carved to the
  // end and has no live chunk.
  lemma {:induction false} FullyFree(cs: nat, count: map<int, nat>, bump: Bump, live: set<int>, free: seq<int>, b: int)
    requires cs > 0 && ChunksOk(cs, count, bump, live, free) && b in count
    ensures count[b] <= Capacity(cs)
    ensures count[b] == Capacity(cs) <==> LiveIn(live, b) == {} && Carved(cs, bump, b) == Capacity(cs)
  {}

  lemma {:induction false} Release(cs: nat, count: map<int, nat>, bump: Bump, live: set<int>, free: seq<int>, b: int)
    requires cs > 0 && ChunksOk(cs, count, bump, live, free) && b in count && count[b] == Capacity(cs)
    ensures ChunksOk(cs, count - {b}, if bump.current == b then Bump(0, 0, 0) else bump, live, Without(free, b))
  {
    FullyFree(cs, count, bump, live, free, b);
    var bump' := if bump.current == b then Bump(0, 0, 0) else bump;
    forall p | IsChunk(cs, bump, p) && BlockOf(p) != b && BlockOf(p) != 0 ensures IsChunk(cs, bump', p) {
      var k: nat :| k < Carved(cs, bump, BlockOf(p)) && p == Chunk(BlockOf(p), cs, k);
      assert k < Carved(cs, bump', BlockOf(p));
    }
    forall p | p in live ensures BlockOf(p) != b {
      assert BlockOf(p) == b ==> p in LiveIn(live, b);
    }
    forall p ensures p in Without(free, b) <==> p in free && BlockOf(p) != b {
      WithoutKeeps(free, b, p);
    }
    forall c | c in count && c != b ensures CountIn(Without(free, b), c) == count[c] {
      WithoutCounts(free, b, c);
    }
  }

  // What a caller relies on: two live chunks never share a byte, each is
  // aligned and lies inside its block, behind the header, and the mask finds
  // that block.
  lemma {:induction false} LiveChunksAreApart(cs: nat, count: map<int, nat>, bump: Bump, live: set<int>, free: seq<int>, p: int, q: int)
    requires cs > 0 && cs % 8 == 0 && ChunksOk(cs, count, bump, live, free) && p in live
    ensures p > 0 && p % 8 == 0 && BlockOf(p) in count && BlockOf(p) + HEADER <= p && p + cs <= BlockOf(p) + BLOCK
    ensures q != p && (q in live || q in free) ==> p + cs <= q || q + cs <= p
  {
    var k: nat :| k < Carved(cs, bump, BlockOf(p)) && p == Chunk(BlockOf(p), cs, k);
    ChunkInBlock(BlockOf(p), cs, k);
    if q != p && (q in live || q in free) {
      assert IsChunk(cs, bump, q);
      var j: nat :| j < Carved(cs, bump, BlockOf(q)) && q == Chunk(BlockOf(q), cs, j);
      ChunkInBlock(BlockOf(q), cs, j);
      if BlockOf(p) == BlockOf(q) {
        if j < k { ChunksApart(BlockOf(p), cs, j, k); } else { ChunksApart(BlockOf(p), cs, k, j); }
      } else {
        BlocksApart(BlockOf(p), BlockOf(q));
      }
    }
  }

  lemma {:induction false} BlocksApart(a: int, b: int)
    requires a % BLOCK == 0 && b % BLOCK == 0 && a != b
    ensures a + BLOCK <= b || b + BLOCK <= a
  {}
}
