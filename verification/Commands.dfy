// What the write commands of kvstore.c do to the tables, expiry times left out:
// the state that recovery has to bring back when TTL is off.
module Commands {
  import opened KvData
  import opened Resp
  import opened TimeKey
  import IdList

  const ARRAY_SIZE: nat := 100_000
  const KEY_BUFFER: nat := 128
  const LLONG_MAX: int := 0x7FFF_FFFF_FFFF_FFFF

  type Values = map<Bytes, Bytes>

  // items is the array engine; blanks counts its entries with an empty key, which nothing finds.
  datatype Db = Db(items: Values, blanks: nat, rb: Values, hash: Values, skip: Values,
                   answers: Values, contexts: Values, records: Values, index: Values)

  const EmptyDb: Db := Db(map[], 0, map[], map[], map[], map[], map[], map[], map[])

  function Upper(c: byte): byte {
    if 97 <= c <= 122 then c - 32 else c
  }

  // A command name, in any case.
  function Name(s: Bytes): string {
    seq(|s|, i requires 0 <= i < |s| => Upper(s[i]) as char)
  }

  predicate IsWrite(name: string) {
    name in {"SET", "DEL", "MOD", "RSET", "RDEL", "RMOD", "HSET", "HDEL", "HMOD", "SSET", "SDEL", "SMOD",
             "KEEP", "SETCTX", "SETREC", "SETIDX", "ZADD", "DELCTX"}
  }

  // A cell of the array is left.
  predicate Room(db: Db) {
    |db.items| + db.blanks < ARRAY_SIZE
  }

  // What SET makes of the array, and of the cells with an empty key.
  function ItemsAfter(db: Db, k: Bytes, v: Bytes): Values {
    if k in db.items || (k != [] && Room(db)) then db.items[k := v] else db.items
  }

  function BlanksAfter(db: Db, k: Bytes): nat {
    if k !in db.items && k == [] && Room(db) then db.blanks + 1 else db.blanks
  }

  // atoll on an argument: what follows it is a CR LF.
  function Atoll(s: Bytes): int {
    var t := SkipSpace(s);
    if t == [] then 0
    else
      var v := Leading(if t[0] == 43 || t[0] == 45 then t[1..] else t, 0);
      var w := if v > LLONG_MAX then LLONG_MAX else v;
      if t[0] == 45 then 0 - w else w
  }

  function ZAdd(skip: Values, ts: int, id: Bytes): Values {
    if ts <= 0 || id == [] || |Stamp(ts)| + 1 + |id| >= KEY_BUFFER then skip
    else skip[Key(ts, id) := []]
  }

  function SetIdx(index: Values, k: Bytes, id: Bytes): Values {
    var v := IdList.Append(if k in index then Some(index[k]) else None, id);
    if v == None then index else index[k := v.value]
  }

  // The handlers of the commands that change a table; MOD is as SET.
  datatype Verb = SET | DEL | RSET | RDEL | HSET | HDEL | SSET | SDEL
                | KEEP | SETCTX | DELCTX | SETREC | SETIDX | ZADD | OTHER

  function VerbOf(name: string): Verb {
    if name == "SET" || name == "MOD" then SET
    else if name == "DEL" then DEL
    else if name == "RSET" || name == "RMOD" then RSET
    else if name == "RDEL" then RDEL
    else if name == "HSET" || name == "HMOD" then HSET
    else if name == "HDEL" then HDEL
    else if name == "SSET" || name == "SMOD" then SSET
    else if name == "SDEL" then SDEL
    else if name == "KEEP" then KEEP
    else if name == "SETCTX" then SETCTX
    else if name == "DELCTX" then DELCTX
    else if name == "SETREC" then SETREC
    else if name == "SETIDX" then SETIDX
    else if name == "ZADD" then ZADD
    else OTHER
  }

  // One command, with TTL off.
  function Exec(db: Db, args: seq<Bytes>): Db {
    if args == [] then db else Handle(db, args, VerbOf(Name(args[0])))
  }

  function Handle(db: Db, args: seq<Bytes>, verb: Verb): Db {
    var n := |args|;
    match verb
    case SET => if n < 3 then db else db.(items := ItemsAfter(db, args[1], args[2]), blanks := BlanksAfter(db, args[1]))
    case DEL => if n < 2 then db else db.(items := db.items - {args[1]})
    case RSET => if n < 3 then db else db.(rb := db.rb[args[1] := args[2]])
    case RDEL => if n < 2 then db else db.(rb := db.rb - {args[1]})
    case HSET => if n < 3 then db else db.(hash := db.hash[args[1] := args[2]])
    case HDEL => if n < 2 then db else db.(hash := db.hash - {args[1]})
    case SSET => if n < 3 then db else db.(skip := db.skip[args[1] := args[2]])
    case SDEL => if n < 2 then db else db.(skip := db.skip - {args[1]})
    case KEEP => if n < 3 then db else db.(answers := db.answers[args[1] := args[2]])
    case SETCTX => if n < 4 then db else db.(contexts := db.contexts[args[1] := args[2]])
    case DELCTX => if n != 2 then db else db.(contexts := db.contexts - {args[1]})
    case SETREC => if n != 3 then db else db.(records := db.records[args[1] := args[2]])
    case SETIDX => if n != 3 then db else db.(index := SetIdx(db.index, args[1], args[2]))
    case ZADD => if n != 3 then db else db.(skip := ZAdd(db.skip, Atoll(args[1]), args[2]))
    case OTHER => db
  }

  predicate IsLogged(args: seq<Bytes>) {
    args != [] && IsWrite(Name(args[0]))
  }

  // The commands that are not logged change no table.
  lemma {:induction false} OnlyLoggedChange(db: Db, args: seq<Bytes>)
    requires Exec(db, args) != db
    ensures IsLogged(args)
  {}
}

// The append-only log and its replay: resp.c, persistence.c, ntyco.c.
module Recovery {
  import opened KvData
  import opened Resp
  import opened Stream
  import opened Commands

  function ExecAll(db: Db, cmds: seq<Command>): Db
    decreases |cmds|
  {
    if cmds == [] then db else ExecAll(Exec(db, cmds[0].args), cmds[1..])
  }

  function Logged(cmds: seq<Command>): seq<Command> {
    if cmds == [] then []
    else (if IsLogged(cmds[0].args) then [cmds[0]] else []) + Logged(cmds[1..])
  }

  lemma {:induction false} LoggedSuffice(db: Db, cmds: seq<Command>)
    ensures ExecAll(db, cmds) == ExecAll(db, Logged(cmds))
    decreases |cmds|
  {
    if cmds != [] {
      var c, rest := cmds[0], cmds[1..];
      LoggedSuffice(Exec(db, c.args), rest);
      if IsLogged(c.args) {
        assert Logged(cmds) == [c] + Logged(rest);
        hide Exec, IsLogged;
        assert ExecAll(db, [c] + Logged(rest)) == ExecAll(Exec(db, c.args), Logged(rest));
      } else {
        assert Exec(db, c.args) == db by { if Exec(db, c.args) != db { OnlyLoggedChange(db, c.args); } }
        hide Exec, IsLogged;
        assert Logged(cmds) == Logged(rest);
      }
    }
  }

  // A beginning of what was logged is what a beginning of the commands logs.
  lemma {:induction false} LoggedPrefix(cmds: seq<Command>, n: nat) returns (m: nat)
    requires n <= |Logged(cmds)|
    ensures m <= |cmds| && Logged(cmds[..m]) == Logged(cmds)[..n]
  {
    if n == 0 {
      m := 0;
    } else {
      var here := if IsLogged(cmds[0].args) then 1 else 0;
      hide IsLogged;
      var j := LoggedPrefix(cmds[1..], n - here);
      m := j + 1;
      assert cmds[..m][1..] == cmds[1..][..m - 1];
    }
  }

  lemma {:induction false} LoggedAreWhole(cmds: seq<Command>)
    requires forall c <- cmds :: Whole(c)
    ensures forall c <- Logged(cmds) :: Whole(c)
  {
    if cmds != [] { LoggedAreWhole(cmds[1..]); }
  }

  // A client stream is executed and logged; the log is cut after any number of
  // bytes; then its replay gives the tables as they were after some beginning
  // of the commands.
  lemma {:induction false} RecoveryIsPrefixConsistent(stream: Bytes, k: nat) returns (m: nat)
    requires k <= |Raw(Logged(Parse(stream).cmds))|
    ensures var cmds := Parse(stream).cmds;
      var file := Raw(Logged(cmds))[..k];
      m <= |cmds| && ExecAll(EmptyDb, Parse(file).cmds) == ExecAll(EmptyDb, cmds[..m])
    ensures k == |Raw(Logged(Parse(stream).cmds))| ==>
      ExecAll(EmptyDb, Parse(stream).cmds) == ExecAll(EmptyDb, Parse(stream).cmds[..m])
  {
    hide Whole, Raw, Exec, IsLogged, Parse;
    var cmds := Parse(stream).cmds;
    ParseCovers(stream);
    LoggedAreWhole(cmds);
    var n := LogPrefix(Logged(cmds), k);
    m := LoggedPrefix(cmds, n);
    LoggedSuffice(EmptyDb, cmds[..m]);
    if k == |Raw(Logged(cmds))| {
      if n < |Logged(cmds)| { Shorter(Logged(cmds), n + 1); }
      assert Logged(cmds)[..n] == Logged(cmds);
      LoggedSuffice(EmptyDb, cmds);
    }
  }

  lemma {:induction false} Shorter(cmds: seq<Command>, n: nat)
    requires n <= |cmds|
    ensures |Raw(cmds[..n])| <= |Raw(cmds)|
  {
    RawAppend(cmds[..n], cmds[n..]);
    assert cmds[..n] + cmds[n..] == cmds;
  }
}
