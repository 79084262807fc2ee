// The transfer of the log file to a slave in repl.c: stop and wait, over RDMA
// writes with immediate values, between two parties and a network that loses
// nothing. Any step that is enabled may come next.
module Rdma {
  import opened KvData

  const CHUNK: nat := 32 * 1024 * 1024
  const TWO_32: nat := 0x1_0000_0000

  // How many receives can be posted at a time; connecting posts that many.
  const MAX_POSTED: nat := 16

  // A write of len bytes from the sender's buffer, which is read on delivery.
  datatype Message = Message(len: nat, imm: nat)

  datatype Master = Start | Announced | Ready | Copied(n: nat) | Sent(n: nat) | Finished

  datatype Slave = AwaitSize | AwaitChunk | Arrived(n: nat) | Stored | Complete

  datatype State = State(
    file: Bytes,
    // master: its place, what has been acknowledged, its transfer buffer
    m: Master, offset: nat, mbuf: Bytes,
    // slave: its place, the announced size, what it has received, its transfer
    // buffer, its file
    s: Slave, size: nat, total: nat, sbuf: Bytes, sfile: Bytes,
    // in flight; delivered and not yet taken; receives that were posted
    toSlave: seq<Message>, atSlave: seq<nat>, slavePosted: nat,
    toMaster: nat, atMaster: nat, masterPosted: nat)

  datatype Step =
    | Announce | CopyChunk | SendChunk | TakeAck | Finish
    | DeliverToSlave | DeliverToMaster
    | TakeSize | TakeChunk | StoreChunk | AckChunk

  function Min(a: nat, b: nat): nat {
    if a < b then a else b
  }

  // A receive is posted, unless there are as many as there can be.
  function Post(posted: nat): nat {
    Min(posted + 1, MAX_POSTED)
  }

  function Over(buf: Bytes, data: Bytes): Bytes {
    if |data| <= |buf| then data + buf[|data|..] else data
  }

  predicate Enabled(t: State, step: Step) {
    match step
    case Announce => t.m == Start
    case CopyChunk => t.m == Ready && t.offset < |t.file|
    case SendChunk => t.m.Copied?
    case TakeAck => (t.m == Announced || t.m.Sent?) && t.atMaster > 0
    case Finish => t.m == Ready && t.offset == |t.file|
    case DeliverToSlave => t.toSlave != [] && t.slavePosted > 0 && t.toSlave[0].len <= |t.mbuf|
    case DeliverToMaster => t.toMaster > 0 && t.masterPosted > 0
    case TakeSize => t.s == AwaitSize && t.atSlave != []
    case TakeChunk => t.s == AwaitChunk && t.atSlave != [] && t.atSlave[0] > 0
    case StoreChunk => t.s.Arrived? && t.s.n <= |t.sbuf|
    case AckChunk => t.s == Stored
  }

  function Apply(t: State, step: Step): State
    requires Enabled(t, step)
  {
    match step
    case Announce =>
      t.(m := Announced, masterPosted := Post(t.masterPosted), toSlave := t.toSlave + [Message(0, |t.file| % TWO_32)])
    case CopyChunk =>
      var n := Min(CHUNK, |t.file| - t.offset);
      t.(m := Copied(n), mbuf := Over(t.mbuf, t.file[t.offset..t.offset + n]))
    case SendChunk =>
      t.(m := Sent(t.m.n), masterPosted := Post(t.masterPosted), toSlave := t.toSlave + [Message(t.m.n, t.m.n)])
    case TakeAck =>
      t.(m := Ready, atMaster := t.atMaster - 1, masterPosted := Post(t.masterPosted),
         offset := t.offset + if t.m.Sent? then t.m.n else 0)
    case Finish => t.(m := Finished)
    case DeliverToSlave =>
      var msg := t.toSlave[0];
      t.(toSlave := t.toSlave[1..], slavePosted := t.slavePosted - 1, atSlave := t.atSlave + [msg.imm],
         sbuf := Over(t.sbuf, t.mbuf[..msg.len]))
    case DeliverToMaster =>
      t.(toMaster := t.toMaster - 1, masterPosted := t.masterPosted - 1, atMaster := t.atMaster + 1)
    case TakeSize =>
      // Taking a completion posts its receive again. The file is truncated,
      // another receive posted and the size acknowledged.
      t.(s := if t.atSlave[0] == 0 then Complete else AwaitChunk, size := t.atSlave[0], total := 0, sfile := [],
         atSlave := t.atSlave[1..], slavePosted := Post(Post(t.slavePosted)), toMaster := t.toMaster + 1)
    case TakeChunk => t.(s := Arrived(t.atSlave[0]), atSlave := t.atSlave[1..], slavePosted := Post(t.slavePosted))
    case StoreChunk =>
      var total := t.total + t.s.n;
      t.(s := Stored, sfile := t.sfile + t.sbuf[..t.s.n], total := total,
         slavePosted := if total < t.size then Post(t.slavePosted) else t.slavePosted)
    case AckChunk =>
      t.(s := if t.total < t.size then AwaitChunk else Complete, toMaster := t.toMaster + 1)
  }

  function Init(file: Bytes, mbuf: Bytes, sbuf: Bytes, sfile: Bytes): State {
    State(file, Start, 0, mbuf, AwaitSize, 0, 0, sbuf, sfile, [], [], MAX_POSTED, 0, 0, MAX_POSTED)
  }

  // ------------------------------------------------------------- the invariant

  // Nothing is under way.
  predicate Still(t: State) {
    t.toSlave == [] && t.atSlave == [] && t.toMaster == 0 && t.atMaster == 0
  }

  // An acknowledgement is on its way or has come.
  predicate Acked(t: State) {
    t.toSlave == [] && t.atSlave == [] && t.toMaster + t.atMaster == 1
  }

  // The slave has the first k bytes and stands ready for the rest.
  predicate Has(t: State, k: nat) {
    && k <= |t.file| && t.sfile == t.file[..k] && t.total == k && t.size == |t.file|
    && t.s == (if k < |t.file| then AwaitChunk else Complete)
  }

  predicate Waiting(t: State) {
    t.toMaster == 0 && t.atMaster == 0
  }

  predicate AnnouncedOk(t: State) {
    t.offset == 0 &&
    if t.s == AwaitSize then
      Waiting(t) && if t.toSlave != [] then t.toSlave == [Message(0, |t.file|)] && t.atSlave == []
                    else t.atSlave == [|t.file|]
    else Acked(t) && Has(t, 0)
  }

  function Piece(t: State, n: nat): Bytes
    requires t.offset + n <= |t.file|
  {
    t.file[t.offset..t.offset + n]
  }

  predicate SentOk(t: State, n: nat)
    requires |t.mbuf| == |t.sbuf| == CHUNK
  {
    && 0 < n <= CHUNK && t.offset + n <= |t.file|
    && match t.s
       case AwaitChunk =>
         if t.toSlave != [] then
           // The master's buffer is as it was when the chunk was sent.
           && t.toSlave == [Message(n, n)] && t.atSlave == [] && Waiting(t) && Has(t, t.offset)
           && t.mbuf[..n] == Piece(t, n)
         else if t.atSlave != [] then
           && t.atSlave == [n] && Waiting(t) && t.sbuf[..n] == Piece(t, n)
           && t.sfile == t.file[..t.offset] && t.total == t.offset && t.size == |t.file|
         else Acked(t) && Has(t, t.offset + n)
       case Arrived(k) =>
         && k == n && t.toSlave == [] && t.atSlave == [] && Waiting(t) && t.sbuf[..n] == Piece(t, n)
         && t.sfile == t.file[..t.offset] && t.total == t.offset && t.size == |t.file|
       case Stored =>
         && t.toSlave == [] && t.atSlave == [] && Waiting(t)
         && t.sfile == t.file[..t.offset + n] && t.total == t.offset + n && t.size == |t.file|
       case _ => Acked(t) && Has(t, t.offset + n)
  }

  // Every message finds a receive: those that were used and not yet posted again
  // are the completions that wait.
  predicate PostedOk(t: State) {
    t.slavePosted + |t.atSlave| >= MAX_POSTED && t.masterPosted + t.atMaster >= MAX_POSTED
  }

  predicate Inv(t: State) {
    && |t.mbuf| == |t.sbuf| == CHUNK && t.offset <= |t.file| < TWO_32 && PostedOk(t)
    && match t.m
       case Start => Still(t) && t.s == AwaitSize && t.offset == 0
       case Announced => AnnouncedOk(t)
       case Ready => Still(t) && Has(t, t.offset)
       case Copied(n) =>
         && Still(t) && Has(t, t.offset)
         && 0 < n <= CHUNK && t.offset + n <= |t.file| && t.mbuf[..n] == Piece(t, n)
       case Sent(n) => SentOk(t, n)
       case Finished => Still(t) && t.offset == |t.file| && Has(t, t.offset)
  }

  lemma {:induction false} InitInv(file: Bytes, mbuf: Bytes, sbuf: Bytes, sfile: Bytes)
    requires |mbuf| == |sbuf| == CHUNK && |file| < TWO_32
    ensures Inv(Init(file, mbuf, sbuf, sfile))
  {}

  lemma {:induction false} MasterKeeps(t: State, step: Step)
    requires Inv(t) && Enabled(t, step) && step in {Announce, CopyChunk, SendChunk, TakeAck, Finish}
    ensures Inv(Apply(t, step))
  {}

  lemma {:induction false} NetworkKeeps(t: State, step: Step)
    requires Inv(t) && Enabled(t, step) && step in {DeliverToSlave, DeliverToMaster}
    ensures Inv(Apply(t, step))
  {}

  lemma {:induction false} SlaveKeeps(t: State, step: Step)
    requires Inv(t) && Enabled(t, step) && step in {TakeSize, TakeChunk, StoreChunk, AckChunk}
    ensures Inv(Apply(t, step))
  {
    if step == StoreChunk {
      var n := t.s.n;
      assert t.file[..t.offset] + Piece(t, n) == t.file[..t.offset + n];
    }
  }

  lemma {:induction false} StepKeeps(t: State, step: Step)
    requires Inv(t) && Enabled(t, step)
    ensures Inv(Apply(t, step))
  {
    hide Inv, Enabled, Apply;
    if step in {Announce, CopyChunk, SendChunk, TakeAck, Finish} { MasterKeeps(t, step); }
    else if step in {DeliverToSlave, DeliverToMaster} { NetworkKeeps(t, step); }
    else { SlaveKeeps(t, step); }
  }

  // ---------------------------------------------------------- what it ensures

  // Once truncated, the slave's file is a beginning of the master's.
  lemma {:induction false} SlaveHasPrefix(t: State)
    requires Inv(t) && t.s != AwaitSize
    ensures t.sfile <= t.file && t.total == |t.sfile|
  {}

  // Data is delivered only while the slave has none to write out, and the
  // master fills its buffer only while nothing is in flight from it.
  lemma {:induction false} NothingOverwritten(t: State)
    requires Inv(t)
    ensures Enabled(t, DeliverToSlave) && t.toSlave[0].len > 0 ==> t.s == AwaitChunk && t.atSlave == []
    ensures Enabled(t, CopyChunk) ==> t.toSlave == []
  {}

  predicate Done(t: State) {
    t.m == Finished && t.s == Complete
  }

  // The two never wait for each other: unless both are done something can
  // happen, and what happens brings them closer to being done.
  lemma {:induction false} NeverStuck(t: State) returns (step: Step)
    requires Inv(t) && !Done(t)
    ensures Enabled(t, step)
  {
    step :=
      if t.m == Start then Announce
      else if t.m == Ready then (if t.offset < |t.file| then CopyChunk else Finish)
      else if t.m.Copied? then SendChunk
      else if t.toSlave != [] then DeliverToSlave
      else if t.atSlave != [] then (if t.s == AwaitSize then TakeSize else TakeChunk)
      else if t.s.Arrived? then StoreChunk
      else if t.s == Stored then AckChunk
      else if t.toMaster > 0 then DeliverToMaster
      else TakeAck;
  }

  function Rank(t: State): nat {
    match t.m
    case Start => 24
    case Announced => if t.toSlave != [] then 23 else if t.atSlave != [] then 22 else if t.toMaster > 0 then 21 else 20
    case Ready => 15
    case Copied(_) => 14
    case Sent(_) =>
      if t.toSlave != [] then 13 else if t.atSlave != [] then 12 else if t.s.Arrived? then 11
      else if t.s == Stored then 10 else if t.toMaster > 0 then 9 else 8
    case Finished => 0
  }

  function Remaining(t: State): nat
    requires t.offset <= |t.file|
  {
    20 * (|t.file| - t.offset) + Rank(t)
  }

  lemma {:induction false} StepsRunOut(t: State, step: Step)
    requires Inv(t) && Enabled(t, step)
    ensures Inv(Apply(t, step)) && Remaining(Apply(t, step)) < Remaining(t)
  {
    StepKeeps(t, step);
  }

  lemma {:induction false} EqualAtTheEnd(t: State)
    requires Inv(t) && Done(t)
    ensures t.sfile == t.file
  {
    assert t.file[..|t.file|] == t.file;
  }

  // The announced size is cut to 32 bits: it is the size of the file exactly
  // when that is below 4 GiB.
  lemma {:induction false} AnnouncedSize(file: Bytes, mbuf: Bytes, sbuf: Bytes, sfile: Bytes)
    ensures var t0 := Init(file, mbuf, sbuf, sfile);
      var t1 := Apply(t0, Announce);
      Enabled(t1, DeliverToSlave) && Enabled(Apply(t1, DeliverToSlave), TakeSize) &&
      (Apply(Apply(t1, DeliverToSlave), TakeSize).size == |file| <==> |file| < TWO_32)
  {}

  // ------------------------------------------------------------- every run

  predicate CanRun(t: State, steps: seq<Step>)
    decreases |steps|
  {
    steps == [] || (Enabled(t, steps[0]) && CanRun(Apply(t, steps[0]), steps[1..]))
  }

  function After(t: State, steps: seq<Step>): State
    requires CanRun(t, steps)
    decreases |steps|
  {
    if steps == [] then t else After(Apply(t, steps[0]), steps[1..])
  }

  // After any run the invariant holds, and each step has used up some of what
  // remained: no run is longer than that.
  lemma {:induction false} RunKeeps(t: State, steps: seq<Step>)
    requires Inv(t) && CanRun(t, steps)
    ensures var u := After(t, steps); Inv(u) && u.file == t.file && |steps| + Remaining(u) <= Remaining(t)
    decreases |steps|
  {
    hide Inv, Remaining, Enabled, Apply;
    if steps != [] {
      StepsRunOut(t, steps[0]);
      SameFile(t, steps[0]);
      RunKeeps(Apply(t, steps[0]), steps[1..]);
    }
  }

  lemma {:induction false} SameFile(t: State, step: Step)
    requires Inv(t) && Enabled(t, step)
    ensures t.offset <= |t.file| && Apply(t, step).file == t.file
  {}

  // Each chunk but the last is 32 MiB; the last is what is left.
  lemma {:induction false} ChunkIs(t: State)
    requires Inv(t) && Enabled(t, CopyChunk)
    ensures var rest := |t.file| - t.offset;
      Apply(t, CopyChunk).m == Copied(if rest < 33554432 then rest else 33554432) && rest > 0
  {}

  // From the start, whatever the two buffers and the slave's old file hold: every
  // run is finite; throughout it the slave's file is a beginning of the master's
  // once it has been truncated, and no data is overwritten; and a run that cannot
  // go on has both parties done with equal files.
  lemma {:induction false} RunsEndEqual(file: Bytes, mbuf: Bytes, sbuf: Bytes, sfile: Bytes, steps: seq<Step>)
    requires |mbuf| == |sbuf| == CHUNK && |file| < TWO_32
    requires CanRun(Init(file, mbuf, sbuf, sfile), steps)
    ensures |steps| <= 20 * |file| + 24
    ensures var u := After(Init(file, mbuf, sbuf, sfile), steps);
      && (u.s != AwaitSize ==> u.sfile <= file)
      && (Enabled(u, DeliverToSlave) && u.toSlave[0].len > 0 ==> u.s == AwaitChunk && u.atSlave == [])
      && (Enabled(u, CopyChunk) ==> u.toSlave == [])
      && ((forall step :: !Enabled(u, step)) ==> Done(u) && u.sfile == file)
  {
    var t := Init(file, mbuf, sbuf, sfile);
    InitInv(file, mbuf, sbuf, sfile);
    RunKeeps(t, steps);
    var u := After(t, steps);
    if u.s != AwaitSize { SlaveHasPrefix(u); }
    NothingOverwritten(u);
    if Done(u) { EqualAtTheEnd(u); } else { var step := NeverStuck(u); }
  }
}
