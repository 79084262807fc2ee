// From the client's stream to the tables after a crash: requests are executed
// and logged, the log is written asynchronously, and the file is replayed.
module Crash {
  import opened KvData
  import opened Resp
  import opened RespEncode
  import opened Stream
  import opened Commands
  import opened Recovery
  import Server
  import Aof
  import TimeKey

  // The writer has accepted all that was logged. It may crash at any moment, with
  // any part of the write in flight done: replaying the file gives the tables as
  // they were after some prefix of the commands.
  lemma {:induction false} CrashThenRecover(aof: Aof.Aof, stream: Bytes, j: nat) returns (m: nat)
    requires aof.Valid() && aof.log == Raw(Logged(Parse(stream).cmds)) && j <= |aof.InFlight()|
    ensures var cmds, file := Parse(stream).cmds, aof.disk + aof.InFlight()[..j];
      m <= |cmds| && ExecAll(EmptyDb, Parse(file).cmds) == ExecAll(EmptyDb, cmds[..m])
  {
    hide Parse, Raw, Logged, ExecAll;
    aof.CrashLeavesPrefix(j);
    m := RecoveryIsPrefixConsistent(stream, |aof.disk| + j);
  }

  // ---------------------------------------------------------------- restarting

  // The server recovers from a file that ends with a whole request, goes on with
  // more commands and crashes again, whatever part of the new log is then written:
  // the next recovery gives the tables of the first followed by some prefix of
  // those commands.
  lemma {:induction false} RestartThenRecover(file: Bytes, aof: Aof.Aof, stream: Bytes, j: nat) returns (m: nat)
    requires Parse(file).rest == []
    requires aof.Valid() && aof.log == file + Raw(Logged(Parse(stream).cmds)) && j <= |aof.InFlight()|
    requires file <= aof.disk
    ensures var cmds, again := Parse(stream).cmds, aof.disk + aof.InFlight()[..j];
      && m <= |cmds|
      && ExecAll(EmptyDb, Parse(again).cmds) == ExecAll(ExecAll(EmptyDb, Parse(file).cmds), cmds[..m])
  {
    hide Parse, Raw, Logged, ExecAll, Whole;
    var cmds, k := Parse(stream).cmds, |aof.disk| + j - |file|;
    var log := Raw(Logged(cmds));
    aof.CrashLeavesPrefix(j);
    assert (file + log)[..|file| + k] == file + log[..k];
    SplitAnywhere(file, log[..k]);
    assert [] + log[..k] == log[..k];
    ParseCovers(stream);
    LoggedAreWhole(cmds);
    var n := LogPrefix(Logged(cmds), k);
    m := LoggedPrefix(cmds, n);
    var first := ExecAll(EmptyDb, Parse(file).cmds);
    LoggedSuffice(first, cmds[..m]);
    Server.ExecInParts(EmptyDb, Parse(file).cmds, Parse(log[..k]).cmds);
  }

  // The log goes on directly behind what the file ends with, so recovery finds
  // the old requests and then the new ones ...
  ghost predicate ReadsOn(file: Bytes, log: seq<Command>) {
    Parse(file + Raw(log)).cmds == Parse(file).cmds + log
  }

  predicate AllLogged(log: seq<Command>) {
    forall c <- log :: Whole(c) && IsLogged(c.args)
  }

  // ... whatever is logged next, exactly if the file ends with a whole request.
  lemma {:induction false} RestartIsSafeWhen(file: Bytes)
    requires |file| <= INT_MAX
    ensures (forall log :: AllLogged(log) ==> ReadsOn(file, log)) <==> Parse(file).rest == []
  {
    hide Parse, Raw, IsLogged, Whole;
    if Parse(file).rest == [] {
      forall log | AllLogged(log) ensures ReadsOn(file, log) {
        SplitAnywhere(file, Raw(log));
        ParseLog(log, []);
        Server.ParseNothing();
        assert [] + Raw(log) == Raw(log) == Raw(log) + [] && log + [] == log;
      }
    } else {
      var log := TornTailMisreads(file);
    }
  }

  const DEL: Bytes := [68, 69, 76]

  // Behind any torn tail there are requests that are not found: a DEL that is
  // longer than the tail.
  lemma {:induction false} TornTailMisreads(file: Bytes) returns (log: seq<Command>)
    requires Parse(file).rest != [] && |file| <= INT_MAX
    ensures AllLogged(log) && !ReadsOn(file, log)
  {
    var rest := Parse(file).rest;
    var c := LongDel(|rest|);
    log := [c];
    hide Parse, Whole, IsLogged;
    Server.RawOne(c);
    SplitAnywhere(file, c.raw);
    var p := Parse(rest + c.raw);
    ParseCovers(rest + c.raw);
    Shifted(rest, c.raw, p.rest);
    assert p.cmds != [c];
    Differ(Parse(file).cmds, p.cmds, [c]);
  }

  lemma {:induction false} Shifted(rest: Bytes, raw: Bytes, tail: Bytes)
    requires rest != [] && |rest| < |raw| && raw[|rest|] != raw[0]
    ensures rest + raw != raw + tail
  {
    assert (rest + raw)[|rest|] == raw[0];
    assert (raw + tail)[|rest|] == raw[|rest|];
  }

  lemma {:induction false} Differ(a: seq<Command>, b: seq<Command>, c: seq<Command>)
    requires b != c
    ensures a + b != a + c
  {
    assert (a + b)[|a|..] == b;
    assert (a + c)[|a|..] == c;
  }

  // A DEL of more than n bytes with an asterisk only in front.
  lemma {:induction false} LongDel(n: nat) returns (c: Command)
    requires n <= INT_MAX
    ensures Whole(c) && IsLogged(c.args) && |c.raw| > n && c.raw[0] == STAR
    ensures forall i :: 0 < i < |c.raw| ==> c.raw[i] != STAR
  {
    var key: Bytes := seq(n, i => 120);
    var args := [DEL, key];
    c := Command(Encode(args), args);
    assert Name(DEL) == "DEL";
    RoundTrip(args, []);
    hide Encode, FrameOf, Name;
    assert Encode(args) + [] == Encode(args);
    OneStar(key);
  }

  lemma {:induction false} OneStar(key: Bytes)
    requires STAR !in key && |key| <= INT_MAX
    ensures var raw := Encode([DEL, key]);
      |raw| > |key| && raw[0] == STAR && forall i :: 0 < i < |raw| ==> raw[i] != STAR
  {
    var a, b := BulkString(DEL), BulkString(key);
    TwoArguments(DEL, key);
    NoStarInBulk(DEL);
    NoStarInBulk(key);
    hide Encode, BulkString;
    var tail := [50] + CRLF + (a + b);
    assert ([STAR, 50] + CRLF) + (a + b) == [STAR] + tail && STAR !in tail;
  }

  lemma {:induction false} NoStarInBulk(arg: Bytes)
    requires STAR !in arg && |arg| <= INT_MAX
    ensures STAR !in BulkString(arg) && |BulkString(arg)| > |arg|
  {
    AtoiOfPrint(|arg|);
    hide Print, Atoi;
    forall i | 0 <= i < |Print(|arg|)| ensures Print(|arg|)[i] != STAR {
      assert TimeKey.Decimal(Print(|arg|));
    }
  }

  // For instance: a DEL of kxy is cut off behind its k, and a DEL of x follows
  // after the restart. Read together they are a DEL of k*2, which nobody sent.
  lemma {:induction false} TornTailMakesUpACommand()
    ensures var torn, next, read := Head + [51, CR, LF, 107], Encode([DEL, [120]]), [DEL, [107, 42, 50]];
      && torn <= Encode([DEL, [107, 120, 121]]) && Parse(torn).cmds == []
      && Parse(torn + next).cmds != [] && Parse(torn + next).cmds[0] == Command(Encode(read), read)
  {
    hide Encode, FrameOf, Parse, Head;
    ShortDel([107, 120, 121]);
    ShortDel([120]);
    ShortDel([107, 42, 50]);
    TornPrefix(Head);
    HeadSplit();
    Spliced(Head, Head[4..]);
    ReadTogether([DEL, [107, 120, 121]], [DEL, [107, 42, 50]], Head + [51, CR, LF, 107], Encode([DEL, [120]]),
                 Head[4..] + [49] + CRLF + [120] + CRLF);
  }

  lemma {:induction false} HeadSplit()
    ensures |Head| == 14 && Head == [STAR, 50, CR, LF] + Head[4..]
  {}

  lemma {:induction false} ReadTogether(sent: seq<Bytes>, read: seq<Bytes>, torn: Bytes, next: Bytes, rest: Bytes)
    requires |sent| == |read| == 2 && (forall a <- sent :: |a| < 10) && (forall a <- read :: |a| < 10)
    requires torn < Encode(sent) && torn + next == Encode(read) + rest
    ensures Parse(torn).cmds == []
    ensures Parse(torn + next).cmds != [] && Parse(torn + next).cmds[0] == Command(Encode(read), read)
  {
    RoundTrip(sent, []);
    RoundTrip(read, []);
    assert Encode(sent) + [] == Encode(sent) && Encode(read) + [] == Encode(read);
    hide Encode, FrameOf, Parse;
    PrefixFree(Encode(sent), |torn|);
    assert Encode(sent)[..|torn|] == torn;
    Server.NoMore(torn);
    FirstIsFound(Command(Encode(read), read), rest);
  }

  lemma {:induction false} TornPrefix(head: Bytes)
    ensures head + [51, CR, LF, 107] < head + [51] + CRLF + [107, 120, 121] + CRLF
    ensures (head + [51] + CRLF + [107, 120, 121] + CRLF)[..|head| + 4] == head + [51, CR, LF, 107]
  {}

  lemma {:induction false} Spliced(head: Bytes, tail: Bytes)
    requires head == [STAR, 50, CR, LF] + tail
    ensures (head + [51, CR, LF, 107]) + (head + [49] + CRLF + [120] + CRLF)
         == (head + [51] + CRLF + [107, 42, 50] + CRLF) + (tail + [49] + CRLF + [120] + CRLF)
  {
    var end := [49] + CRLF + [120] + CRLF;
    assert head + [49] + CRLF + [120] + CRLF == head + end;
    assert tail + [49] + CRLF + [120] + CRLF == tail + end;
    assert head + [51] + CRLF + [107, 42, 50] + CRLF == head + [51, CR, LF, 107] + [STAR, 50, CR, LF];
  }

  const Head: Bytes := [STAR, 50, CR, LF, DOLLAR, 51, CR, LF, 68, 69, 76, CR, LF, DOLLAR]

  lemma {:induction false} ShortDel(key: Bytes)
    requires |key| < 10
    ensures Encode([DEL, key]) == Head + [48 + |key|] + CRLF + key + CRLF
  {
    TwoArguments(DEL, key);
    OneDigit(3);
    OneDigit(|key|);
    hide Encode, Print;
    assert BulkString(DEL) == [DOLLAR, 51, CR, LF, 68, 69, 76, CR, LF];
  }

  lemma {:induction false} OneDigit(n: nat)
    requires n < 10
    ensures Print(n) == [48 + n]
  {
    assert TimeKey.Dec(0, 0) == [];
  }
}
