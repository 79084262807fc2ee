// The asynchronous log writer of persistence.c: two buffers that are swapped,
// and one write in flight, which the kernel finishes at a time of its own.
module Aof {
  import opened KvData

  const BUF_SIZE: nat := 64 * 1024 * 1024
  const MIN_FLUSH: nat := 16 * 1024
  const TIMEOUT_MS: int := 10

  // A submitted write reads the flush buffer when it is carried out.
  datatype Request = Request(at: nat, len: nat)

  // One pass of the wait loop, as the kernel decides it: whether a write has
  // finished when the completions are polled, whether waiting succeeds, and
  // whether there are submission slots.
  datatype Round = Round(finished: bool, waited: bool, slot: bool)

  function WriteAt(disk: Bytes, at: nat, data: Bytes): Bytes {
    if at > |disk| then disk
    else if at + |data| >= |disk| then disk[..at] + data
    else disk[..at] + data + disk[at + |data|..]
  }

  lemma {:induction false} AtEnd(disk: Bytes, data: Bytes)
    ensures WriteAt(disk, |disk|, data) == disk + data
  {
    assert disk[..|disk|] == disk;
  }

  class Aof {
    var active: Bytes
    var flush: Bytes
    var busy: bool
    var offset: nat
    var lastFlush: int
    // the kernel: the file, a write not yet carried out, completions to collect
    var disk: Bytes
    var request: Option<Request>
    var completions: nat
    // every write that was accepted
    ghost var log: Bytes

    ghost function InFlight(): Bytes
      reads this
    {
      if request.Some? then flush else []
    }

    // File, then the write in flight, then what waits: that is the whole log.
    ghost predicate Valid()
      reads this
    {
      && |active| <= BUF_SIZE
      && disk + InFlight() + active == log
      && offset == |disk| + |InFlight()|
      && (request.Some? ==> request.value == Request(|disk|, |flush|))
      && (busy <==> request.Some? || completions > 0)
      && (request.Some? ==> completions == 0) && completions <= 1
      && (!busy ==> flush == [])
    }

    constructor (file: Bytes)
      ensures Valid() && log == file == disk && !busy && active == []
    {
      active, flush, busy, offset, lastFlush := [], [], false, |file|, 0;
      disk, request, completions := file, None, 0;
      log := file;
    }

    // What a crash leaves, the write in flight carried out in part, is a
    // beginning of the log.
    lemma {:induction false} CrashLeavesPrefix(j: nat)
      requires Valid() && j <= |InFlight()|
      ensures disk + InFlight()[..j] <= log
      ensures disk + InFlight()[..j] == log[..|disk| + j]
    {
      assert log[..|disk| + j] == disk + InFlight()[..j];
    }

    // The kernel carries out the write in flight.
    method Complete()
      requires Valid() && request.Some?
      modifies this`disk, this`request, this`completions
      ensures Valid() && request == None && completions == 1
      ensures disk == old(disk) + flush
    {
      AtEnd(disk, flush);
      assert disk + [] == disk && disk + flush + [] == disk + flush;
      disk := WriteAt(disk, request.value.at, flush[..request.value.len]);
      request, completions := None, completions + 1;
    }

    // Swaps the buffers and submits the full one.
    method TriggerFlush(slot: bool)
      requires Valid()
      modifies this`active, this`flush, this`busy, this`offset, this`request
      ensures Valid() && log == old(log)
      ensures if old(active) != [] && !old(busy) && slot
              then busy && active == [] && request.Some? && flush == old(active)
              else busy == old(busy) && active == old(active) && request == old(request) && flush == old(flush)
    {
      if |active| == 0 || busy { return; }
      if !slot { return; }
      assert disk + [] + active == disk + active + [] == disk + active;
      active, flush := flush, active;
      var len := |flush|;
      active := [];
      busy := true;
      request := Some(Request(offset, len));
      offset := offset + len;
    }

    // Collects completions; then flushes again if enough has gathered.
    method CheckCompletions(finished: bool, slot: bool)
      requires Valid()
      modifies this
      ensures Valid() && log == old(log) && lastFlush == old(lastFlush)
      ensures active == if old(busy) && (finished || old(completions) > 0) && |old(active)| >= 16384 && slot
                        then [] else old(active)
      ensures active != old(active) ==> request.Some? && flush == old(active)
      ensures old(busy) && !finished && old(completions) == 0 ==>
        busy && active == old(active) && request == old(request) && disk == old(disk)
      ensures old(busy) && (finished || old(completions) > 0) ==>
        (busy <==> |old(active)| >= 16384 && slot) && (!busy ==> disk + active == log)
      ensures !old(busy) ==> !busy && active == old(active) && disk == old(disk)
    {
      if !busy { return; }
      if finished && request.Some? { Complete(); }
      var found := false;
      while completions > 0
        invariant completions <= 1 && (found ==> completions == 0 && request == None)
        invariant found || completions > 0 || request.Some?
        invariant request.Some? ==> completions == 0
        invariant !found ==> Valid()
        decreases completions
        modifies this`completions
      {
        completions := completions - 1;
        found := true;
      }
      if found {
        busy := false;
        flush := [];
        if |active| >= MIN_FLUSH {
          TriggerFlush(slot);
        }
      }
    }

    // io_uring_wait_cqe: waits for the write in flight and collects it.
    method WaitOnce(waited: bool)
      requires Valid() && busy
      modifies this`disk, this`request, this`completions, this`busy, this`flush
      ensures Valid() && active == old(active) && offset == old(offset)
      ensures if waited then !busy else busy && disk == old(disk) && request == old(request)
    {
      if !waited { return; }
      if request.Some? { Complete(); }
      completions := completions - 1;
      busy := false;
      flush := [];
    }

    // Appends to the log. rounds: what each pass of the wait loop meets; the call
    // is still waiting if none of them was good.
    method Write(data: Bytes, rounds: seq<Round>) returns (accepted: bool)
      requires Valid()
      modifies this
      ensures Valid() && log == if accepted then old(log) + data else old(log)
      ensures |data| > 67108864 ==> !accepted
      ensures |data| <= 67108864 && |old(active)| + |data| <= 67108864 ==> accepted
      ensures |data| <= 67108864 && (exists r <- rounds :: r.waited && r.slot) ==> accepted
    {
      hide Valid, InFlight;
      if data == [] {
        assert log + data == log;
        return true;
      }
      if |data| > BUF_SIZE { return false; }
      var i := 0;
      while |active| + |data| > BUF_SIZE && i < |rounds|
        invariant Valid() && log == old(log) && 0 <= i <= |rounds|
        invariant i == 0 ==> active == old(active)
        invariant |active| + |data| > BUF_SIZE ==> forall j :: 0 <= j < i ==> !(rounds[j].waited && rounds[j].slot)
      {
        CheckCompletions(rounds[i].finished, rounds[i].slot);
        if busy {
          WaitOnce(rounds[i].waited);
        }
        TriggerFlush(rounds[i].slot);
        i := i + 1;
      }
      if |active| + |data| > BUF_SIZE { return false; }
      Append(data);
      return true;
    }

    method Append(data: Bytes)
      requires Valid() && |active| + |data| <= BUF_SIZE
      modifies this`active, this`log
      ensures Valid() && log == old(log) + data && active == old(active) + data
    {
      active := active + data;
      log := log + data;
    }

    // 16 KiB have gathered, or anything at all has waited 10 ms.
    predicate Due(now: int)
      reads this
    {
      |active| >= MIN_FLUSH || (|active| > 0 && now - lastFlush >= TIMEOUT_MS)
    }

    // Submits what waits exactly if it is due, a slot is there and no write is
    // still in flight. The clock of the 10 ms restarts only where the size rule
    // has not already submitted it on the completion of a write.
    method FlushPending(now: int, finished: bool, slot: bool)
      requires Valid()
      modifies this
      ensures Valid() && log == old(log)
      ensures var idle := !old(busy) || finished || old(completions) > 0;
        && (active == if idle && slot && old(Due(now)) then [] else old(active))
        && (idle && slot && old(Due(now)) ==> busy && flush == old(active))
        && (lastFlush == if idle && old(Due(now)) && !(old(busy) && slot && |old(active)| >= MIN_FLUSH) then now else old(lastFlush))
      // With a slot and no write left in flight, what still waits is short of
      // 16 KiB and its clock short of 10 ms; and what is both is not submitted.
      ensures slot && (!old(busy) || finished || old(completions) > 0) && active != [] ==>
        |active| < 16384 && now - old(lastFlush) < 10
      ensures |old(active)| < 16384 && now - old(lastFlush) < 10 ==> active == old(active) && lastFlush == old(lastFlush)
      ensures active == old(active) || active == []
    {
      CheckCompletions(finished, slot);
      var bySize := |active| >= MIN_FLUSH;
      var byTime := |active| > 0 && now - lastFlush >= TIMEOUT_MS;
      if !busy && (bySize || byTime) {
        TriggerFlush(slot);
        lastFlush := now;
      }
    }

    method ForceFlush(now: int, finished: bool, slot: bool)
      requires Valid()
      modifies this
      ensures Valid() && log == old(log)
      ensures slot ==> active == [] || busy
    {
      CheckCompletions(finished, slot);
      if !busy && |active| > 0 {
        TriggerFlush(slot);
        lastFlush := now;
      }
    }

    // Closing. The loop that waits for the write in flight collects its
    // completion and does not clear the busy flag; then it waits for one more,
    // which never comes. So closing hangs exactly when a write is in flight
    // after the first two steps; what was then still in the active buffer is not
    // in the file.
    method Close(finished: bool, slot: bool) returns (hung: bool)
      requires Valid()
      modifies this
      ensures log == old(log)
      ensures hung <==> (old(busy) && !finished && old(completions) == 0) || (old(active) != [] && slot)
      ensures hung ==> disk + active == log
      ensures !hung ==> Valid() && disk == log
    {
      CheckCompletions(finished, slot);
      if !busy && |active| > 0 {
        TriggerFlush(slot);
      }
      ghost var waits := busy;
      while busy
        invariant waits == busy && log == old(log)
        invariant busy ==> disk + InFlight() + active == log && (request.Some? ==> Valid())
        invariant busy ==> completions <= 1 && (request.Some? ==> completions == 0)
        invariant !busy ==> Valid()
        decreases if request.Some? then 2 else completions
      {
        if request == None && completions == 0 {
          // Nothing is under way: io_uring_wait_cqe blocks for ever.
          assert disk + [] + active == disk + active;
          return true;
        }
        if request.Some? { Complete(); }
        completions := completions - 1;
      }
      flush := [];
      if |active| > 0 {
        WriteRest();
      }
      assert disk + [] + [] == disk;
      return false;
    }

    // No submission slot: the rest is written synchronously.
    method WriteRest()
      requires Valid() && !busy && active != []
      modifies this`disk, this`offset, this`active
      ensures Valid() && disk == log && active == []
    {
      AtEnd(disk, active);
      disk := WriteAt(disk, offset, active);
      offset := offset + |active|;
      active := [];
    }
  }
}
