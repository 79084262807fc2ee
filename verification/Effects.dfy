// What any run of commands leaves in the tables: to each key the last write wins.
module Effects {
  import opened KvData
  import opened Stream
  import opened Commands
  import opened Recovery
  import opened Verbs
  import IdList
  import Server

  // The tables after the first n commands.
  function After(cmds: seq<Command>, n: nat): Db
    requires n <= |cmds|
  {
    ExecAll(EmptyDb, cmds[..n])
  }

  predicate Touches(cmds: seq<Command>, j: nat, t: Which, k: Bytes)
    requires j < |cmds|
  {
    Writes(After(cmds, j), t, cmds[j].args, k) || Drops(t, cmds[j].args, k)
  }

  // Command i is the last to write to the key, and none drops it later.
  ghost predicate LastWrite(cmds: seq<Command>, i: nat, t: Which, k: Bytes) {
    i < |cmds| && Writes(After(cmds, i), t, cmds[i].args, k) &&
    forall j :: i < j < |cmds| ==> !Touches(cmds, j, t, k)
  }

  // A key is in a table exactly if a write to it was not followed by a deletion,
  // and has the value of the last one.
  lemma {:induction false} LastWriteWins(cmds: seq<Command>, t: Which, k: Bytes)
    ensures var m := In(ExecAll(EmptyDb, cmds), t);
      && (k in m <==> exists i: nat :: LastWrite(cmds, i, t, k))
      && forall i: nat :: LastWrite(cmds, i, t, k) ==> k in m && m[k] == Written(cmds[i].args)
  {
    hide Exec, ExecAll, Writes, Drops, Written, In;
    if cmds == [] {
      NothingYet(t, k);
    } else {
      var n := |cmds| - 1;
      var before, c := cmds[..n], cmds[n];
      LastWriteWins(before, t, k);
      assert cmds == before + [c] && After(cmds, n) == ExecAll(EmptyDb, before);
      Server.ExecMore(EmptyDb, before, c);
      OneCommand(ExecAll(EmptyDb, before), c.args, t, k);
      forall i: nat | i < n ensures LastWrite(cmds, i, t, k) <==> LastWrite(before, i, t, k) && !Touches(cmds, n, t, k) {
        Earlier(cmds, n, i, t, k);
      }
      assert LastWrite(cmds, n, t, k) <==> Writes(After(cmds, n), t, c.args, k);
      assert forall i: nat :: LastWrite(cmds, i, t, k) ==> i <= n;
      hide LastWrite;
      assert forall i: nat :: i < n ==> before[i] == cmds[i];
      if !Touches(cmds, n, t, k) {
        assert forall i: nat :: LastWrite(cmds, i, t, k) ==> i < n;
        if i: nat :| LastWrite(before, i, t, k) { assert LastWrite(cmds, i, t, k) by { InRun(before, i, t, k); } }
      }
    }
  }

  lemma {:induction false} InRun(cmds: seq<Command>, i: nat, t: Which, k: Bytes)
    requires LastWrite(cmds, i, t, k)
    ensures i < |cmds|
  {}

  lemma {:induction false} NothingYet(t: Which, k: Bytes)
    ensures k !in In(ExecAll(EmptyDb, []), t)
  {}

  lemma {:induction false} Earlier(cmds: seq<Command>, n: nat, i: nat, t: Which, k: Bytes)
    requires i < n == |cmds| - 1
    ensures LastWrite(cmds, i, t, k) <==> LastWrite(cmds[..n], i, t, k) && !Touches(cmds, n, t, k)
  {
    hide ExecAll, Writes, Drops;
    var before := cmds[..n];
    forall j: nat | j < n ensures After(before, j) == After(cmds, j) && before[j] == cmds[j] {
      assert before[..j] == cmds[..j];
    }
    if LastWrite(before, i, t, k) && !Touches(cmds, n, t, k) {
      forall j | i < j < |cmds| ensures !Touches(cmds, j, t, k) {
        if j < n { assert !Touches(before, j, t, k); }
      }
    }
    if LastWrite(cmds, i, t, k) {
      forall j | i < j < n ensures !Touches(before, j, t, k) { assert !Touches(cmds, j, t, k); }
    }
  }

  // The keys and ids that the SETIDX commands give.
  function Appends(cmds: seq<Command>): seq<(Bytes, Bytes)> {
    if cmds == [] then []
    else
      var n := |cmds| - 1;
      var args := cmds[n].args;
      Appends(cmds[..n]) + if Is(args, SetIndex) && |args| == 3 then [(args[1], args[2])] else []
  }

  // The keyword index is what the appends make of it, each to its own key.
  lemma {:induction false} IndexOfAppends(cmds: seq<Command>)
    ensures ExecAll(EmptyDb, cmds).index == IdList.Index(Appends(cmds))
  {
    hide Exec, ExecAll, Is;
    if cmds == [] {
      NoIndexYet();
    } else {
      var n := |cmds| - 1;
      var before, c := cmds[..n], cmds[n];
      IndexOfAppends(before);
      assert cmds == before + [c];
      Server.ExecMore(EmptyDb, before, c);
      IndexCommand(ExecAll(EmptyDb, before), c.args);
      if Is(c.args, SetIndex) && |c.args| == 3 {
        OneAppendMore(Appends(before), c.args[1], c.args[2]);
      } else {
        assert Appends(cmds) == Appends(before) + [] == Appends(before);
      }
    }
  }

  lemma {:induction false} NoIndexYet()
    ensures ExecAll(EmptyDb, []).index == map[] == IdList.Index([])
  {}

  lemma {:induction false} OneAppendMore(ops: seq<(Bytes, Bytes)>, k: Bytes, id: Bytes)
    ensures IdList.Index(ops + [(k, id)]) == SetIdx(IdList.Index(ops), k, id)
  {
    hide IdList.Append;
    assert (ops + [(k, id)])[..|ops|] == ops;
  }

  // The array never has an entry with an empty key.
  lemma {:induction false} NoEmptyKey(cmds: seq<Command>)
    ensures [] !in ExecAll(EmptyDb, cmds).items
  {
    hide Exec, ExecAll, Drops, Is, Room;
    if cmds == [] {
      NothingYet(Items, []);
    } else {
      var n := |cmds| - 1;
      var before, c := cmds[..n], cmds[n];
      NoEmptyKey(before);
      assert cmds == before + [c];
      Server.ExecMore(EmptyDb, before, c);
      OneCommand(ExecAll(EmptyDb, before), c.args, Items, []);
    }
  }
}
