// Requests in a stream: how it is cut into requests, encoding, and the loops of
// resp.c and of the connection coroutine in ntyco.c.
module Stream {
  import opened KvData
  import opened Resp
  import opened SeqFacts
  import TimeKey

  datatype Command = Command(raw: Bytes, args: seq<Bytes>)

  // The whole requests at the start of a stream, and what is left.
  datatype Parsed = Parsed(cmds: seq<Command>, rest: Bytes)

  function Parse(b: Bytes): (r: Parsed)
    ensures |r.rest| <= |b|
    decreases |b|
  {
    var f := FrameOf(b);
    if f.Complete? && 0 < f.len <= |b| then
      var more := Parse(b[f.len..]);
      Parsed([Command(b[..f.len], f.args)] + more.cmds, more.rest)
    else Parsed([], b)
  }

  function Raw(cmds: seq<Command>): Bytes {
    if cmds == [] then [] else cmds[0].raw + Raw(cmds[1..])
  }

  predicate Whole(c: Command) {
    FrameOf(c.raw) == Complete(|c.raw|, c.args)
  }

  lemma {:induction false} RawCons(c: Command, rest: seq<Command>)
    ensures Raw([c] + rest) == c.raw + Raw(rest)
  {
    assert ([c] + rest)[1..] == rest;
  }

  lemma {:induction false} RawAppend(a: seq<Command>, b: seq<Command>)
    ensures Raw(a + b) == Raw(a) + Raw(b)
  {
    if a == [] {
      assert a + b == b;
    } else {
      assert a == [a[0]] + a[1..];
      RawAppend(a[1..], b);
      Assoc([a[0]], a[1..], b);
      RawCons(a[0], a[1..] + b);
      RawCons(a[0], a[1..]);
      Assoc(a[0].raw, Raw(a[1..]), Raw(b));
    }
  }

  // A request first in a stream is found first, whatever follows.
  lemma {:induction false} FirstIsFound(c: Command, x: Bytes)
    requires Whole(c)
    ensures |c.raw| >= 4 && FrameOf(c.raw + x) == Complete(|c.raw|, c.args)
    ensures Parse(c.raw + x) == Parsed([c] + Parse(x).cmds, Parse(x).rest)
  {
    Stable(c.raw, x);
    assert c.raw[..|c.raw|] == c.raw;
    assert (c.raw + x)[..|c.raw|] == c.raw && (c.raw + x)[|c.raw|..] == x;
  }

  lemma {:induction false} FirstIsWhole(b: Bytes)
    requires FrameOf(b).Complete?
    ensures 4 <= FrameOf(b).len <= |b| && Whole(Command(b[..FrameOf(b).len], FrameOf(b).args))
  {
    Stable(b, []);
    assert b[..FrameOf(b).len] + [] == b[..FrameOf(b).len];
  }

  lemma {:induction false} ParseMore(b: Bytes)
    requires FrameOf(b).Complete?
    ensures var f := FrameOf(b);
      var c := Command(b[..f.len], f.args);
      && 4 <= f.len <= |b| && Whole(c) && b == c.raw + b[f.len..]
      && Parse(b) == Parsed([c] + Parse(b[f.len..]).cmds, Parse(b[f.len..]).rest)
  {
    FirstIsWhole(b);
  }

  // Nothing is lost, and every command is a whole request.
  lemma {:induction false} ParseCovers(b: Bytes)
    ensures Raw(Parse(b).cmds) + Parse(b).rest == b
    ensures forall c <- Parse(b).cmds :: Whole(c)
    ensures !FrameOf(Parse(b).rest).Complete?
    decreases |b|
  {
    var f := FrameOf(b);
    if f.Complete? {
      ParseMore(b);
      hide Parse, FrameOf, Raw, Whole;
      var more := Parse(b[f.len..]);
      ParseCovers(b[f.len..]);
      RawCons(Command(b[..f.len], f.args), more.cmds);
      Assoc(b[..f.len], Raw(more.cmds), more.rest);
    } else {
      assert [] + b == b;
    }
  }

  lemma {:induction false} ParseLog(cmds: seq<Command>, x: Bytes)
    requires forall c <- cmds :: Whole(c)
    ensures Parse(Raw(cmds) + x) == Parsed(cmds + Parse(x).cmds, Parse(x).rest)
  {
    if cmds == [] {
      assert [] + x == x;
      assert [] + Parse(x).cmds == Parse(x).cmds;
    } else {
      var c, rest := cmds[0], cmds[1..];
      assert Whole(c);
      assert cmds == [c] + rest;
      hide Parse, Whole, FrameOf;
      ParseLog(rest, x);
      FirstIsFound(c, Raw(rest) + x);
      Assoc(c.raw, Raw(rest), x);
      assert ([c] + rest) + Parse(x).cmds == [c] + (rest + Parse(x).cmds) by { Assoc([c], rest, Parse(x).cmds); }
    }
  }

  // A stream may be cut anywhere: parsing what is left of the first part
  // together with the second part finds the same commands.
  lemma {:induction false} SplitAnywhere(a: Bytes, b: Bytes)
    ensures Parse(a + b).cmds == Parse(a).cmds + Parse(Parse(a).rest + b).cmds
    ensures Parse(a + b).rest == Parse(Parse(a).rest + b).rest
  {
    hide Parse, Raw, Whole;
    var p := Parse(a);
    ParseCovers(a);
    ParseLog(p.cmds, p.rest + b);
    Assoc(Raw(p.cmds), p.rest, b);
  }

  function Concat(chunks: seq<Bytes>): Bytes {
    if chunks == [] then [] else Concat(chunks[..|chunks| - 1]) + chunks[|chunks| - 1]
  }

  function Feed(chunks: seq<Bytes>): Parsed {
    if chunks == [] then Parsed([], [])
    else
      var before := Feed(chunks[..|chunks| - 1]);
      var now := Parse(before.rest + chunks[|chunks| - 1]);
      Parsed(before.cmds + now.cmds, now.rest)
  }

  lemma {:induction false} AnyChunks(chunks: seq<Bytes>)
    ensures Feed(chunks) == Parse(Concat(chunks))
  {
    if chunks != [] {
      AnyChunks(chunks[..|chunks| - 1]);
      SplitAnywhere(Concat(chunks[..|chunks| - 1]), chunks[|chunks| - 1]);
    }
  }

  // Cut a log of whole requests after any number of bytes: a beginning of the
  // requests is found, up to the last one that is still whole.
  lemma {:induction false} LogPrefix(cmds: seq<Command>, k: nat) returns (n: nat)
    requires (forall c <- cmds :: Whole(c)) && k <= |Raw(cmds)|
    ensures n <= |cmds| && Parse(Raw(cmds)[..k]).cmds == cmds[..n]
    ensures |Raw(cmds[..n])| <= k && (n < |cmds| ==> k < |Raw(cmds[..n + 1])|)
  {
    if cmds == [] { return 0; }
    var c, rest := cmds[0], cmds[1..];
    assert Whole(c);
    hide Parse, Raw, Whole, FrameOf;
    assert cmds == [c] + rest;
    RawCons(c, rest);
    if k < |c.raw| {
      n := 0;
      CutFirst(c, rest, k);
    } else {
      n := LogPrefix(rest, k - |c.raw|);
      CutBehind(c.raw, Raw(rest), k);
      FirstIsFound(c, Raw(rest)[..k - |c.raw|]);
      CutCommands(c, rest, n);
      if n < |rest| { CutCommands(c, rest, n + 1); }
      n := n + 1;
    }
  }

  lemma {:induction false} CutFirst(c: Command, rest: seq<Command>, k: nat)
    requires Whole(c) && k < |c.raw|
    ensures k <= |Raw([c] + rest)| && Parse(Raw([c] + rest)[..k]).cmds == []
    ensures Raw(([c] + rest)[..0]) == [] && k < |Raw(([c] + rest)[..1])|
  {
    RawCons(c, rest);
    CutCommands(c, rest, 0);
    PrefixFree(c.raw, k);
    assert (c.raw + Raw(rest))[..k] == c.raw[..k];
  }

  lemma {:induction false} CutBehind(a: Bytes, b: Bytes, k: nat)
    requires |a| <= k <= |a| + |b|
    ensures (a + b)[..k] == a + b[..k - |a|]
  {}

  lemma {:induction false} CutCommands(c: Command, rest: seq<Command>, n: nat)
    requires n <= |rest|
    ensures ([c] + rest)[..n + 1] == [c] + rest[..n]
    ensures Raw(([c] + rest)[..n + 1]) == c.raw + Raw(rest[..n])
  {
    assert ([c] + rest)[..n + 1] == [c] + rest[..n];
    RawCons(c, rest[..n]);
  }
}
