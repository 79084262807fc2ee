// The lock-free queue of expire.c between one producer thread and one consumer
// thread. Every load, slot access and store is a step of its own; steps of the
// two threads may come in any order.
module Spsc {

  const SIZE: nat := 65536

  // A slot that is being written holds no item.
  datatype Slot<T> = Torn | Full(item: T)

  // Where the producer stands; seen is how many pops the loaded tail stands for.
  datatype Producer<T> =
    | Ready
    | HeadLoaded(item: T, head: nat)
    | TailLoaded(item: T, head: nat, tail: nat, seen: nat)
    | Writing(item: T, head: nat)
    | Written(item: T, head: nat)

  // Where the consumer stands; seen is how many pushes the loaded head stands for.
  datatype Consumer<T> =
    | Waiting
    | TailKnown(tail: nat)
    | HeadKnown(tail: nat, head: nat, seen: nat)
    | Reading(tail: nat)
    | Read(tail: nat, item: T)

  // pushed and popped record the completed operations.
  datatype Queue<T> = Queue(items: seq<Slot<T>>, head: nat, tail: nat,
                            p: Producer<T>, c: Consumer<T>, pushed: seq<T>, popped: seq<T>)

  datatype Outcome<T> = Busy | Done | Refused | Got(item: T)

  function Next(i: nat): nat {
    (i + 1) % SIZE
  }

  // queue_push: a load of the head begins it.
  function BeginPush<T>(q: Queue<T>, item: T): Queue<T> {
    q.(p := HeadLoaded(item, q.head))
  }

  function ProducerStep<T>(q: Queue<T>): (Queue<T>, Outcome<T>) {
    match q.p
    case Ready => (q, Busy)
    case HeadLoaded(item, head) => (q.(p := TailLoaded(item, head, q.tail, |q.popped|)), Busy)
    case TailLoaded(item, head, tail, seen) =>
      if Next(head) == tail then (q.(p := Ready), Refused)
      else if head < |q.items| then (q.(p := Writing(item, head), items := q.items[head := Torn]), Busy)
      else (q, Busy)
    case Writing(item, head) =>
      if head < |q.items| then (q.(p := Written(item, head), items := q.items[head := Full(item)]), Busy)
      else (q, Busy)
    case Written(item, head) =>
      (q.(p := Ready, head := Next(head), pushed := q.pushed + [item]), Done)
  }

  // queue_pop: a load of the tail begins it.
  function BeginPop<T>(q: Queue<T>): Queue<T> {
    q.(c := TailKnown(q.tail))
  }

  function ConsumerStep<T>(q: Queue<T>): (Queue<T>, Outcome<T>) {
    match q.c
    case Waiting => (q, Busy)
    case TailKnown(tail) => (q.(c := HeadKnown(tail, q.head, |q.pushed|)), Busy)
    case HeadKnown(tail, head, seen) =>
      if tail == head then (q.(c := Waiting), Refused) else (q.(c := Reading(tail)), Busy)
    case Reading(tail) =>
      if tail < |q.items| && q.items[tail].Full? then (q.(c := Read(tail, q.items[tail].item)), Busy)
      else (q, Busy)
    case Read(tail, item) =>
      (q.(c := Waiting, tail := Next(tail), popped := q.popped + [item]), Got(item))
  }

  // ------------------------------------------------------------- the invariant

  ghost predicate ProducerOk<T>(q: Queue<T>) {
    match q.p
    case Ready => true
    case HeadLoaded(_, head) => head == q.head
    case TailLoaded(_, head, tail, seen) =>
      head == q.head && seen <= |q.popped| && tail == seen % SIZE && |q.pushed| - seen < SIZE
    case Writing(_, head) => head == q.head && |q.pushed| - |q.popped| < SIZE - 1
    case Written(item, head) =>
      head == q.head && |q.pushed| - |q.popped| < SIZE - 1 && head < |q.items| && q.items[head] == Full(item)
  }

  ghost predicate ConsumerOk<T>(q: Queue<T>) {
    match q.c
    case Waiting => true
    case TailKnown(tail) => tail == q.tail
    case HeadKnown(tail, head, seen) =>
      tail == q.tail && |q.popped| <= seen <= |q.pushed| && head == seen % SIZE
    case Reading(tail) => tail == q.tail && |q.popped| < |q.pushed|
    case Read(tail, item) => tail == q.tail && |q.popped| < |q.pushed| && item == q.pushed[|q.popped|]
  }

  // What has been pushed and not popped stands in the slots between tail and
  // head, and what was popped is what was pushed, in the same order.
  ghost predicate Ok<T>(q: Queue<T>) {
    && |q.items| == SIZE
    && |q.popped| <= |q.pushed| < |q.popped| + SIZE
    && q.head == |q.pushed| % SIZE && q.tail == |q.popped| % SIZE
    && q.popped == q.pushed[..|q.popped|]
    && (forall k :: |q.popped| <= k < |q.pushed| ==> q.items[k % SIZE] == Full(q.pushed[k]))
    && ProducerOk(q) && ConsumerOk(q)
  }

  function Empty<T>(items: seq<Slot<T>>): Queue<T> {
    Queue(items, 0, 0, Ready, Waiting, [], [])
  }

  lemma {:induction false} StartsOk<T>(items: seq<Slot<T>>)
    requires |items| == SIZE
    ensures Ok(Empty(items))
  {}

  lemma {:induction false} NextIs(n: nat)
    ensures Next(n % SIZE) == (n + 1) % SIZE
  {}

  // Counters less than a lap apart share a slot only if they are equal.
  lemma {:induction false} OneLap(a: nat, b: nat)
    requires a <= b < a + SIZE
    ensures a % SIZE == b % SIZE <==> a == b
  {}

  lemma {:induction false} PushBegins<T>(q: Queue<T>, item: T)
    requires Ok(q) && q.p == Ready
    ensures Ok(BeginPush(q, item))
  {}

  lemma {:induction false} PopBegins<T>(q: Queue<T>)
    requires Ok(q) && q.c == Waiting
    ensures Ok(BeginPop(q))
  {}

  // The slot that is written is not between tail and head, so no slot is
  // overwritten before it has been read.
  lemma {:induction false} WritesOutside<T>(q: Queue<T>, k: nat)
    requires Ok(q) && |q.pushed| - |q.popped| < SIZE - 1 && |q.popped| <= k < |q.pushed|
    ensures k % SIZE != q.head
  {
    OneLap(k, |q.pushed|);
  }

  // A push is refused only if, when the tail was loaded, 65535 items were
  // waiting.
  lemma {:induction false} RefusedWhenFull<T>(q: Queue<T>)
    requires Ok(q) && q.p.TailLoaded?
    ensures Next(q.p.head) == q.p.tail <==> |q.pushed| - q.p.seen == SIZE - 1
  {
    NextIs(|q.pushed|);
    if |q.pushed| - q.p.seen < SIZE - 1 {
      OneLap(q.p.seen, |q.pushed| + 1);
    } else {
      assert |q.pushed| + 1 == q.p.seen + SIZE;
    }
  }

  // A pop finds nothing only if, when the head was loaded, nothing was waiting.
  lemma {:induction false} NothingWhenEmpty<T>(q: Queue<T>)
    requires Ok(q) && q.c.HeadKnown?
    ensures q.c.tail == q.c.head <==> q.c.seen == |q.popped|
  {
    OneLap(|q.popped|, q.c.seen);
  }

  lemma {:induction false} ProducerKeepsOk<T>(q: Queue<T>)
    requires Ok(q)
    ensures Ok(ProducerStep(q).0)
  {
    var r := ProducerStep(q).0;
    match q.p {
      case TailLoaded(item, head, tail, seen) =>
        RefusedWhenFull(q);
        if Next(head) != tail {
          forall k | |r.popped| <= k < |r.pushed| ensures r.items[k % SIZE] == Full(r.pushed[k]) { WritesOutside(q, k); }
        }
      case Writing(item, head) =>
        forall k | |r.popped| <= k < |r.pushed| ensures r.items[k % SIZE] == Full(r.pushed[k]) { WritesOutside(q, k); }
      case Written(item, head) =>
        NextIs(|q.pushed|);
      case _ =>
    }
  }

  lemma {:induction false} ConsumerKeepsOk<T>(q: Queue<T>)
    requires Ok(q)
    ensures Ok(ConsumerStep(q).0)
  {
    match q.c {
      case HeadKnown(tail, head, seen) => NothingWhenEmpty(q);
      case Reading(tail) => assert q.items[|q.popped| % SIZE] == Full(q.pushed[|q.popped|]);
      case Read(tail, item) => NextIs(|q.popped|);
      case _ =>
    }
  }

  // A read never meets a slot that is being written.
  lemma {:induction false} NeverTorn<T>(q: Queue<T>)
    requires Ok(q) && q.c.Reading?
    ensures q.c.tail < |q.items| && q.items[q.c.tail] == Full(q.pushed[|q.popped|])
    ensures (q.p.Writing? || q.p.Written?) ==> q.p.head != q.c.tail
  {
    assert q.items[|q.popped| % SIZE] == Full(q.pushed[|q.popped|]);
    if q.p.Writing? || q.p.Written? { WritesOutside(q, |q.popped|); }
  }

  function Waits<T>(q: Queue<T>): seq<T> {
    if |q.popped| <= |q.pushed| then q.pushed[|q.popped|..] else []
  }

  lemma {:induction false} BeginningsMoveNothing<T>(q: Queue<T>, item: T)
    ensures Waits(BeginPush(q, item)) == Waits(q) == Waits(BeginPop(q))
  {}

  // First in, first out: a step changes what waits only by putting its item
  // last or by taking the first one.
  lemma {:induction false} ProducerPutsLast<T>(q: Queue<T>)
    requires Ok(q)
    ensures var (r, o) := ProducerStep(q);
      && Waits(r) == (if o == Done then Waits(q) + [q.p.item] else Waits(q))
      && (o != Busy ==> r.p == Ready) && (q.p != Ready && o == Busy ==> r.p != Ready) && (o == Done || o == Refused ==> !q.p.Ready?)
      && !o.Got? && r.c == q.c && r.popped == q.popped
      && (q.p != Ready && r.p != Ready ==> r.p.item == q.p.item)
  {
    ProducerKeepsOk(q);
  }

  lemma {:induction false} ConsumerTakesFirst<T>(q: Queue<T>)
    requires Ok(q)
    ensures var (r, o) := ConsumerStep(q);
      && (if o.Got? then Waits(q) == [o.item] + Waits(r) else Waits(r) == Waits(q))
      && (o != Busy ==> r.c == Waiting) && (q.c != Waiting && o == Busy ==> r.c != Waiting) && o != Done && r.p == q.p && r.pushed == q.pushed
  {
    ConsumerKeepsOk(q);
  }

  // ------------------------------------------------- a thread left in peace

  function Produce<T>(q: Queue<T>, n: nat): Queue<T> {
    if n == 0 then q else ProducerStep(Produce(q, n - 1)).0
  }

  function Consume<T>(q: Queue<T>, n: nat): Queue<T> {
    if n == 0 then q else ConsumerStep(Consume(q, n - 1)).0
  }

  lemma {:induction false} PushAlone<T>(q: Queue<T>, item: T)
    requires Ok(q) && q.p == Ready && |q.pushed| - |q.popped| < SIZE - 1
    ensures var b := BeginPush(q, item);
      && ProducerStep(b).1 == Busy && Produce(b, 1).p != Ready
      && ProducerStep(Produce(b, 1)).1 == Busy && Produce(b, 2).p != Ready
      && ProducerStep(Produce(b, 2)).1 == Busy && Produce(b, 3).p != Ready
      && ProducerStep(Produce(b, 3)).1 == Done
      && Ok(Produce(b, 4)) && Produce(b, 4).p == Ready && Produce(b, 4).c == q.c
      && Produce(b, 4).popped == q.popped && Produce(b, 4).pushed == q.pushed + [item]
  {
    var b := BeginPush(q, item);
    PushBegins(q, item);
    ProducerKeepsOk(b);
    assert Produce(b, 1) == ProducerStep(b).0;
    RefusedWhenFull(Produce(b, 1));
    ProducerKeepsOk(Produce(b, 1));
    assert Produce(b, 2) == ProducerStep(Produce(b, 1)).0;
    ProducerKeepsOk(Produce(b, 2));
    assert Produce(b, 3) == ProducerStep(Produce(b, 2)).0;
    ProducerKeepsOk(Produce(b, 3));
    assert Produce(b, 4) == ProducerStep(Produce(b, 3)).0;
  }

  lemma {:induction false} PopAlone<T>(q: Queue<T>)
    requires Ok(q) && q.c == Waiting && |q.popped| < |q.pushed|
    ensures var b := BeginPop(q);
      && ConsumerStep(b).1 == Busy && Consume(b, 1).c != Waiting
      && ConsumerStep(Consume(b, 1)).1 == Busy && Consume(b, 2).c != Waiting
      && ConsumerStep(Consume(b, 2)).1 == Busy && Consume(b, 3).c != Waiting
      && ConsumerStep(Consume(b, 3)).1 == Got(q.pushed[|q.popped|])
      && Ok(Consume(b, 4)) && Consume(b, 4).c == Waiting && Consume(b, 4).p == q.p
      && Consume(b, 4).pushed == q.pushed && |Consume(b, 4).popped| == |q.popped| + 1
  {
    var b := BeginPop(q);
    PopBegins(q);
    ConsumerKeepsOk(b);
    assert Consume(b, 1) == ConsumerStep(b).0;
    NothingWhenEmpty(Consume(b, 1));
    ConsumerKeepsOk(Consume(b, 1));
    assert Consume(b, 2) == ConsumerStep(Consume(b, 1)).0;
    NeverTorn(Consume(b, 2));
    ConsumerKeepsOk(Consume(b, 2));
    assert Consume(b, 3) == ConsumerStep(Consume(b, 2)).0;
    ConsumerKeepsOk(Consume(b, 3));
    assert Consume(b, 4) == ConsumerStep(Consume(b, 3)).0;
  }

  lemma {:induction false} PopNothing<T>(q: Queue<T>)
    requires Ok(q) && q.c == Waiting && |q.popped| == |q.pushed|
    ensures var b := BeginPop(q);
      && ConsumerStep(b).1 == Busy && Consume(b, 1).c != Waiting
      && ConsumerStep(Consume(b, 1)).1 == Refused && Consume(b, 2) == q
  {
    var b := BeginPop(q);
    PopBegins(q);
    ConsumerKeepsOk(b);
    assert Consume(b, 1) == ConsumerStep(b).0;
    NothingWhenEmpty(Consume(b, 1));
    assert Consume(b, 2) == ConsumerStep(Consume(b, 1)).0;
  }
}
