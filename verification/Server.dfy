// The loops that cut a stream into requests, execute and log them: resp.c and
// the receive loop of ntyco.c.
module Server {
  import opened KvData
  import opened Resp
  import opened Stream
  import opened SeqFacts
  import opened Commands
  import opened Recovery

  const MAX_RBUFFER: nat := 16 * 1024 * 1024

  method FindCrlfFrom(b: Bytes, p: nat) returns (r: Option<nat>)
    ensures r == FindCrlf(b, p)
  {
    var i := p;
    while i + 1 < |b|
      invariant p <= i && FindCrlf(b, p) == FindCrlf(b, i)
      decreases |b| - i
    {
      if b[i] == CR && b[i + 1] == LF { return Some(i); }
      i := i + 1;
    }
    return None;
  }

  // Outside: a number the model does not follow; the loops stop there.
  datatype Probe = No | Yes(len: nat) | Outside

  function ProbeOf(f: Frame): Probe {
    match f
    case Incomplete => No
    case Complete(len, _) => Yes(len)
    case Wild => Outside
  }

  method HasComplete(b: Bytes) returns (r: Probe)
    ensures r == ProbeOf(FrameOf(b))
  {
    if |b| < 4 || b[0] != STAR { return No; }
    var crlf := FindCrlfFrom(b, 0);
    if crlf == None { return No; }
    var argc := Atoi(b[1..crlf.value]);
    if argc == None { return Outside; }
    r := CheckArgs(b, crlf.value + 2, argc.value);
  }

  method CheckArgs(b: Bytes, start: nat, argc: int) returns (r: Probe)
    ensures r == ProbeOf(Args(b, start, argc, []))
  {
    hide BulkAt;
    var p: nat, i: int := start, 0;
    ghost var acc: seq<Bytes> := [];
    while i < argc
      invariant 0 <= i && (argc >= 0 ==> i <= argc) && (argc < 0 ==> i == 0)
      invariant Args(b, start, argc, []) == Args(b, p, argc - i, acc)
    {
      var bulk := CheckBulk(b, p);
      if bulk == Cut { return No; }
      if bulk == Odd { return Outside; }
      acc := acc + [bulk.data];
      p, i := bulk.next, i + 1;
    }
    return Yes(p);
  }

  method CheckBulk(b: Bytes, p: nat) returns (r: Bulk)
    ensures r == BulkAt(b, p)
  {
    hide Atoi, FindCrlf;
    if p >= |b| || b[p] != DOLLAR { return Cut; }
    var crlf := FindCrlfFrom(b, p);
    if crlf == None { return Cut; }
    var len := Atoi(b[p + 1..crlf.value]);
    if len == None || len.value < 0 { return Odd; }
    var q := crlf.value + 2;
    if q + len.value + 2 > |b| { return Cut; }
    if b[q + len.value] != CR || b[q + len.value + 1] != LF { return Cut; }
    return Got(b[q..q + len.value], q + len.value + 2);
  }

  // The arguments of a request that is known to be whole.
  method Unpack(raw: Bytes) returns (args: seq<Bytes>)
    requires FrameOf(raw).Complete?
    ensures args == FrameOf(raw).args
  {
    hide Atoi, FindCrlf, BulkAt;
    args := [];
    var crlf := FindCrlfFrom(raw, 0);
    HeaderLength(raw, crlf.value);
    var argc := Atoi(raw[1..crlf.value]).value;
    var p: nat, i: int := crlf.value + 2, 0;
    while i < argc
      invariant 0 <= i && (argc >= 0 ==> i <= argc) && (argc < 0 ==> i == 0)
      invariant FrameOf(raw) == Args(raw, p, argc - i, args)
    {
      var arg;
      arg, p := UnpackBulk(raw, p);
      args := args + [arg];
      i := i + 1;
    }
  }

  method UnpackBulk(raw: Bytes, p: nat) returns (arg: Bytes, next: nat)
    requires BulkAt(raw, p).Got?
    ensures BulkAt(raw, p) == Got(arg, next)
  {
    hide Atoi, FindCrlf;
    var crlf := FindCrlfFrom(raw, p);
    var len := Atoi(raw[p + 1..crlf.value]).value;
    var q := crlf.value + 2;
    return raw[q..q + len], q + len + 2;
  }

  class Server {
    var db: Db
    var log: Bytes

    constructor ()
      ensures db == EmptyDb && log == []
    {
      db, log := EmptyDb, [];
    }

    // Logs a write command before it is executed; replay does not log.
    method Handle(raw: Bytes, args: seq<Bytes>, record: bool)
      modifies this
      ensures db == Exec(old(db), args) && log == old(log) + if record && IsLogged(args) then raw else []
    {
      if record && IsLogged(args) { log := log + raw; }
      db := Exec(db, args);
    }

    method HandleNext(raw: Bytes, record: bool) returns (args: seq<Bytes>)
      requires FrameOf(raw).Complete?
      modifies this
      ensures args == FrameOf(raw).args
      ensures db == Exec(old(db), args) && log == old(log) + if record && IsLogged(args) then raw else []
    {
      args := Unpack(raw);
      Handle(raw, args, record);
    }

    method ProcessStream(b: Bytes) returns (status: int, parsed: nat)
      modifies this
      ensures if b != [] && b[0] != STAR
              then status == -1 && parsed == 0 && db == old(db) && log == old(log)
              else && status == 0 && parsed == |Raw(Parse(b).cmds)| <= |b| && b[parsed..] == Parse(b).rest
                   && db == ExecAll(old(db), Parse(b).cmds)
                   && log == old(log) + Raw(Logged(Parse(b).cmds))
      ensures b != [] && b[0] != STAR ==> Parse(b) == Parsed([], b)
    {
      if b == [] || b[0] != STAR { NoMore(b); }
      if b == [] { return 0, 0; }
      if b[0] != STAR { return -1, 0; }
      parsed := Cut(b, true);
      status := 0;
    }

    // protocol_process_recover.
    method Recover(b: Bytes) returns (processed: nat)
      modifies this
      ensures processed == |Raw(Parse(b).cmds)| <= |b|
      ensures db == ExecAll(old(db), Parse(b).cmds) && log == old(log)
    {
      if b == [] {
        NoMore(b);
        return 0;
      }
      processed := Cut(b, false);
    }

    // The loop that a stream and a replayed log share.
    method Cut(b: Bytes, record: bool) returns (processed: nat)
      modifies this
      ensures processed == |Raw(Parse(b).cmds)| <= |b| && b[processed..] == Parse(b).rest
      ensures db == ExecAll(old(db), Parse(b).cmds)
      ensures log == old(log) + if record then Raw(Logged(Parse(b).cmds)) else []
    {
      hide FrameOf, Parse, Raw, ExecAll, Logged, Exec, IsLogged;
      ParseCovers(b);
      Nothing(db);
      processed := 0;
      ghost var done: seq<Command> := [];
      assert b[0..] == b;
      while processed < |b|
        invariant processed <= |b| && processed == |Raw(done)|
        invariant done + Parse(b[processed..]).cmds == Parse(b).cmds && Parse(b[processed..]).rest == Parse(b).rest
        invariant db == ExecAll(old(db), done) && log == old(log) + (if record then Raw(Logged(done)) else [])
      {
        ghost var rest, db1, log1 := b[processed..], db, log;
        var len, args := First(b[processed..], record);
        if len == 0 {
          NoMore(rest);
          break;
        }
        ParseMore(rest);
        ghost var c := Command(rest[..len], args);
        OneMoreDone(old(db), done, c);
        Assoc(done, [c], Parse(rest[len..]).cmds);
        assert rest[len..] == b[processed + len..];
        done := done + [c];
        processed := processed + len;
      }
      ParseNothing();
      assert processed == |b| ==> b[processed..] == [];
      assert done + [] == done;
    }

    // Handles the request that a buffer starts with, if there is one.
    method First(b: Bytes, record: bool) returns (len: nat, args: seq<Bytes>)
      modifies this
      ensures len == 0 ==> !FrameOf(b).Complete? && db == old(db) && log == old(log)
      ensures len > 0 ==> FrameOf(b) == Complete(len, args) && len <= |b| && db == Exec(old(db), args)
      ensures len > 0 ==> log == old(log) + if record && IsLogged(args) then b[..len] else []
    {
      var probe := HasComplete(b);
      if !probe.Yes? { return 0, []; }
      len := probe.len;
      ParseMore(b);
      hide FrameOf, Exec, IsLogged;
      args := HandleNext(b[..len], record);
    }
  }

  class Connection {
    const server: Server
    var rbuffer: Bytes
    var capacity: nat

    ghost predicate Valid()
      reads this
    {
      |rbuffer| <= capacity && capacity in Capacities
    }

    constructor (server: Server)
      ensures Valid() && this.server == server && rbuffer == []
    {
      this.server := server;
      rbuffer, capacity := [], 4096;
    }

    // Room for the next recv(), unless 16 MiB of an unfinished request wait.
    method Reserve() returns (ready: bool)
      requires Valid()
      modifies this`capacity
      ensures Valid() && ready == (|rbuffer| < 16777216) && (ready ==> |rbuffer| < capacity)
    {
      if |rbuffer| >= MAX_RBUFFER { return false; }
      if capacity - |rbuffer| < 65536 && capacity < MAX_RBUFFER {
        var larger := capacity * 2;
        if larger < 65536 { larger := 65536; }
        capacity := larger;
      }
      return true;
    }

    method OnData(chunk: Bytes)
      requires Valid() && |rbuffer| + |chunk| <= capacity
      modifies this`rbuffer, server
      ensures Valid()
      ensures var p := Parse(old(rbuffer) + chunk);
        && rbuffer == p.rest && server.db == ExecAll(old(server.db), p.cmds)
        && server.log == old(server.log) + Raw(Logged(p.cmds))
    {
      hide Parse, Raw, ExecAll, Logged, Capacities;
      rbuffer := rbuffer + chunk;
      var total := HandleAll(rbuffer);
      if total > 0 {
        rbuffer := rbuffer[total..];
      }
    }

    // Calls the handler until nothing more is parsed.
    method HandleAll(b: Bytes) returns (total: nat)
      modifies server
      ensures total <= |b| && b[total..] == Parse(b).rest && (total == 0 ==> Parse(b).rest == b)
      ensures server.db == ExecAll(old(server.db), Parse(b).cmds)
      ensures server.log == old(server.log) + Raw(Logged(Parse(b).cmds))
    {
      hide Parse, Raw, ExecAll, Logged;
      ghost var p := Parse(b);
      RestHasNone(b);
      Nothing(server.db);
      Nothing(ExecAll(server.db, p.cmds));
      total := 0;
      while |b| > total
        invariant total <= |b|
        invariant total == 0 ==> server.db == old(server.db) && server.log == old(server.log)
        invariant total > 0 ==> b[total..] == p.rest && server.db == ExecAll(old(server.db), p.cmds)
        invariant total > 0 ==> server.log == old(server.log) + Raw(Logged(p.cmds))
        decreases |b| - total
      {
        assert total == 0 ==> b[total..] == b;
        var status, parsed := server.ProcessStream(b[total..]);
        if status == 1 || parsed == 0 { break; }
        // The close on a negative status is never reached: it comes with
        // nothing parsed.
        if status < 0 { assert false; }
        assert total == 0;
        total := total + parsed;
      }
    }

    // recv() delivers at most counts[i] bytes the i-th time. However the stream
    // is cut, what has been executed and logged after k bytes is the same; and
    // it stops early only with 16 MiB of an unfinished request in the buffer.
    method Serve(stream: Bytes, counts: seq<nat>) returns (k: nat)
      requires Valid() && rbuffer == []
      modifies this, server
      ensures Valid() && k <= |stream|
      ensures var p := Parse(stream[..k]);
        && rbuffer == p.rest && server.db == ExecAll(old(server.db), p.cmds)
        && server.log == old(server.log) + Raw(Logged(p.cmds))
      ensures (forall n <- counts :: n > 0) ==> k == |stream| || |rbuffer| >= 16777216 || k >= |counts|
    {
      hide Raw, ExecAll, Logged, Capacities, Parse;
      k := 0;
      ParseNothing();
      Nothing(server.db);
      var i := 0;
      while i < |counts| && k < |stream|
        invariant Valid() && 0 <= i <= |counts| && k <= |stream|
        invariant (forall n <- counts :: n > 0) ==> k >= i
        invariant rbuffer == Parse(stream[..k]).rest
        invariant server.db == ExecAll(old(server.db), Parse(stream[..k]).cmds)
        invariant server.log == old(server.log) + Raw(Logged(Parse(stream[..k]).cmds))
      {
        var ready := Reserve();
        if !ready { break; }
        assert counts[i] in counts;
        k := ReceiveOnce(stream, k, counts[i], old(server.db), old(server.log));
        i := i + 1;
      }
    }

    method ReceiveOnce(stream: Bytes, k: nat, count: nat, ghost db0: Db, ghost log0: Bytes) returns (k': nat)
      requires Valid() && k <= |stream| && rbuffer == Parse(stream[..k]).rest
      requires server.db == ExecAll(db0, Parse(stream[..k]).cmds)
      requires server.log == log0 + Raw(Logged(Parse(stream[..k]).cmds))
      modifies this`rbuffer, server
      ensures Valid() && k <= k' <= |stream| && rbuffer == Parse(stream[..k']).rest
      ensures k' - k <= count && (|stream| > k && count > 0 && old(|rbuffer|) < capacity ==> k' > k)
      ensures server.db == ExecAll(db0, Parse(stream[..k']).cmds)
      ensures server.log == log0 + Raw(Logged(Parse(stream[..k']).cmds))
    {
      hide Raw, ExecAll, Logged, Capacities, Parse;
      var n := capacity - |rbuffer|;
      if count < n { n := count; }
      if |stream| - k < n { n := |stream| - k; }
      var chunk := stream[k..k + n];
      SplitAnywhere(stream[..k], chunk);
      assert stream[..k] + chunk == stream[..k + n];
      ghost var before, now := Parse(stream[..k]).cmds, Parse(rbuffer + chunk).cmds;
      ExecInParts(db0, before, now);
      Assoc(log0, Raw(Logged(before)), Raw(Logged(now)));
      OnData(chunk);
      return k + n;
    }
  }

  const Capacities: set<nat> := {4096, 65536, 131072, 262144, 524288, 1048576, 2097152, 4194304, 8388608, 16777216}

  lemma {:induction false} ExecInParts(db: Db, a: seq<Command>, b: seq<Command>)
    ensures ExecAll(db, a + b) == ExecAll(ExecAll(db, a), b)
    ensures Raw(Logged(a + b)) == Raw(Logged(a)) + Raw(Logged(b))
    decreases |a|
  {
    LoggedInParts(a, b);
    RawAppend(Logged(a), Logged(b));
    hide Exec, IsLogged, Raw;
    if a == [] {
      assert a + b == b;
    } else {
      ExecInParts(Exec(db, a[0].args), a[1..], b);
      assert (a + b)[1..] == a[1..] + b;
    }
  }

  lemma {:induction false} LoggedInParts(a: seq<Command>, b: seq<Command>)
    ensures Logged(a + b) == Logged(a) + Logged(b)
    decreases |a|
  {
    hide IsLogged;
    if a == [] {
      assert a + b == b;
    } else {
      LoggedInParts(a[1..], b);
      assert (a + b)[1..] == a[1..] + b;
    }
  }

  lemma {:induction false} RestHasNone(b: Bytes)
    ensures Parse(Parse(b).rest) == Parsed([], Parse(b).rest)
    ensures Raw(Parse(b).cmds) == [] ==> Parse(b).cmds == [] && Parse(b).rest == b
  {
    hide FrameOf;
    ParseCovers(b);
    NoMore(Parse(b).rest);
    if Parse(b).cmds != [] {
      var c := Parse(b).cmds[0];
      assert Whole(c);
      FirstIsFound(c, []);
    }
  }

  lemma {:induction false} Nothing(db: Db)
    ensures ExecAll(db, []) == db && Raw([]) == [] && Logged([]) == []
  {}

  lemma {:induction false} NoMore(b: Bytes)
    requires !FrameOf(b).Complete?
    ensures Parse(b) == Parsed([], b)
  {}

  lemma {:induction false} ParseNothing()
    ensures Parse([]) == Parsed([], [])
  {}

  lemma {:induction false} OneMoreDone(db: Db, done: seq<Command>, c: Command)
    ensures ExecAll(db, done + [c]) == Exec(ExecAll(db, done), c.args)
    ensures Raw(done + [c]) == Raw(done) + c.raw
    ensures Raw(Logged(done + [c])) == Raw(Logged(done)) + if IsLogged(c.args) then c.raw else []
  {
    ExecMore(db, done, c);
    LoggedMore(done, c);
    RawAppend(done, [c]);
    RawAppend(Logged(done), [c]);
    RawOne(c);
    hide Exec, IsLogged, Raw;
    assert Logged(done) + [] == Logged(done);
    assert Raw(Logged(done)) + [] == Raw(Logged(done));
  }

  lemma {:induction false} RawOne(c: Command)
    ensures Raw([c]) == c.raw
  {
    assert [c][1..] == [];
  }

  lemma {:induction false} ExecMore(db: Db, done: seq<Command>, c: Command)
    ensures ExecAll(db, done + [c]) == Exec(ExecAll(db, done), c.args)
    decreases |done|
  {
    hide Exec;
    if done == [] {
      assert [] + [c] == [c] && [c][1..] == [];
      assert ExecAll(db, [c]) == ExecAll(Exec(db, c.args), [c][1..]);
    } else {
      ExecMore(Exec(db, done[0].args), done[1..], c);
      assert (done + [c])[1..] == done[1..] + [c];
    }
  }

  lemma {:induction false} LoggedMore(done: seq<Command>, c: Command)
    ensures Logged(done + [c]) == Logged(done) + if IsLogged(c.args) then [c] else []
    decreases |done|
  {
    hide IsLogged;
    if done == [] {
      assert [] + [c] == [c] && [c][1..] == [];
    } else {
      LoggedMore(done[1..], c);
      assert (done + [c])[1..] == done[1..] + [c];
    }
  }
}
