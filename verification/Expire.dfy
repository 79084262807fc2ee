// The two threads of expire.c, one step at a time: the main thread runs
// commands, submits timers and carries out deletions; the timer thread keeps
// the heap. Each lock-free queue lies between them, one in each direction.
module Expire {
  import opened KvData
  import opened Spsc
  import opened MinHeap
  import T = Table

  const ARRAY: int := 0
  const HASH: int := 1
  const HASH2: int := 4

  datatype Main = Free | Submitting(item: Item) | Popping | Deleting(item: Item)

  datatype Timer = Draining | Clock | Checking(now: int) | Handing(now: int, item: Item)

  // submitted, readings and freed are histories: the timers ever made, the
  // clock readings of the timer thread, and the timers whose key was freed.
  datatype State = State(ttl: bool, tables: map<int, T.Table>, cmds: Queue<Item>, dels: Queue<Item>,
                         heap: multiset<Item>, main: Main, timer: Timer,
                         submitted: seq<Item>, readings: seq<int>, freed: seq<Item>)

  datatype Step =
    // main thread
    | Set(kind: int, key: Bytes, value: Bytes, expire: int, copied: bool)
    | Get(kind: int, key: Bytes, now: int)
    | Del(kind: int, key: Bytes)
    | PushStep
    | BeginPop
    | PopStep
    | Delete(hit: bool)
    // timer thread
    | DrainStep
    | ReadClock(now: int)
    | Take(item: Item)
    | Quiet
    | HandStep

  // The expiry time that a handler stores: none with TTL off, but SETCTX always
  // stores its own.
  function Stored(s: State, kind: int, expire: int): int {
    if s.ttl || kind == HASH2 then expire else 0
  }

  // The handler of a SET: the table first, then a timer. Only the handler for
  // the array makes one without an expiry time too.
  function ApplySet(s: State, kind: int, key: Bytes, value: Bytes, expire: int, copied: bool): State {
    if kind !in s.tables then s else
    var e := Stored(s, kind, expire);
    var s' := s.(tables := s.tables[kind := T.Set(s.tables[kind], key, value, e)]);
    if s.ttl && (kind == ARRAY || e > 0) && copied then
      var item := Item(|s.submitted|, kind, key, e);
      s'.(main := Submitting(item), cmds := Spsc.BeginPush(s.cmds, item), submitted := s.submitted + [item])
    else s'
  }

  // hit: whether the hash engine finds the key, whose cached hash was not set.
  function ApplyDelete(s: State, item: Item, hit: bool): State {
    var found := item.kind in s.tables && (hit || item.kind !in {HASH, HASH2});
    s.(main := Free, freed := s.freed + [item],
       tables := if found then s.tables[item.kind := T.AfterTimer(s.tables[item.kind], item.key, item.expire)]
                 else s.tables)
  }

  function ApplyMain(s: State, step: Step): State {
    match step
    case Set(kind, key, value, expire, copied) =>
      if s.main == Free then ApplySet(s, kind, key, value, expire, copied) else s
    case Get(kind, key, now) =>
      if s.main == Free && kind in s.tables
      then s.(tables := s.tables[kind := T.AfterGet(s.tables[kind], key, s.ttl, now)]) else s
    case Del(kind, key) =>
      if s.main == Free && kind in s.tables then s.(tables := s.tables[kind := s.tables[kind] - {key}]) else s
    case PushStep =>
      if !s.main.Submitting? then s else
      var (q, o) := ProducerStep(s.cmds);
      (match o
       case Done => s.(cmds := q, main := Free)
       case Refused => s.(cmds := q, main := Free, freed := s.freed + [s.main.item])
       case _ => s.(cmds := q))
    case BeginPop =>
      if s.main == Free then s.(main := Popping, dels := Spsc.BeginPop(s.dels)) else s
    case PopStep =>
      if s.main != Popping then s else
      var (q, o) := ConsumerStep(s.dels);
      (match o
       case Got(item) => s.(dels := q, main := Deleting(item))
       case Refused => s.(dels := q, main := Free)
       case _ => s.(dels := q))
    case Delete(hit) =>
      if s.main.Deleting? then ApplyDelete(s, s.main.item, hit) else s
    case _ => s
  }

  function ApplyTimer(s: State, step: Step): State {
    match step
    case DrainStep =>
      if s.timer != Draining then s
      else if s.cmds.c == Waiting then s.(cmds := Spsc.BeginPop(s.cmds))
      else
        var (q, o) := ConsumerStep(s.cmds);
        (match o
         case Got(item) => s.(cmds := q, heap := s.heap + multiset{item})
         case Refused => s.(cmds := q, timer := Clock)
         case _ => s.(cmds := q))
    case ReadClock(now) =>
      if s.timer == Clock then s.(timer := Checking(now), readings := s.readings + [now]) else s
    case Take(item) =>
      if s.timer.Checking? && item in s.heap && item.expire <= s.timer.now && First(s.heap, item)
      then s.(heap := s.heap - multiset{item}, timer := Handing(s.timer.now, item),
              dels := Spsc.BeginPush(s.dels, item))
      else s
    case Quiet =>
      if s.timer.Checking? && NoneDue(s.heap, s.timer.now) then s.(timer := Draining) else s
    case HandStep =>
      if !s.timer.Handing? then s
      else if s.dels.p == Ready then s.(dels := Spsc.BeginPush(s.dels, s.timer.item))
      else
        var (q, o) := ProducerStep(s.dels);
        if o == Done then s.(dels := q, timer := Checking(s.timer.now)) else s.(dels := q)
    case _ => s
  }

  predicate First(heap: multiset<Item>, item: Item) {
    forall x <- heap :: item.expire <= x.expire
  }

  predicate NoneDue(heap: multiset<Item>, now: int) {
    forall x <- heap :: x.expire > now
  }

  function Apply(s: State, step: Step): State {
    if step in {PushStep, BeginPop, PopStep} || step.Set? || step.Get? || step.Del? || step.Delete?
    then ApplyMain(s, step) else ApplyTimer(s, step)
  }

  function Run(s: State, steps: seq<Step>): State
    decreases |steps|
  {
    if steps == [] then s else Apply(Run(s, steps[..|steps| - 1]), steps[|steps| - 1])
  }

  function Start(ttl: bool, tables: map<int, T.Table>, slots: seq<Slot<Item>>): State {
    State(ttl, tables, Empty(slots), Empty(slots), multiset{}, Free, Draining, [], [], [])
  }

  // ------------------------------------------------------------- the invariant

  function Num(s: seq<Item>, x: Item): nat {
    multiset(s)[x]
  }

  function One(b: bool): nat {
    if b then 1 else 0
  }

  // In how many places a timer is: a queue, the heap, a thread's hand, or done
  // with.
  function Places(s: State, x: Item): nat {
    Num(Waits(s.cmds), x) + s.heap[x] + Num(Waits(s.dels), x) + Num(s.freed, x)
    + One((s.main.Submitting? || s.main.Deleting?) && s.main.item == x)
    + One(s.timer.Handing? && s.timer.item == x)
  }

  ghost predicate Reached(readings: seq<int>, time: int) {
    exists i :: 0 <= i < |readings| && time <= readings[i]
  }

  // Each thread is inside at most one queue operation, on its own item.
  ghost predicate Threads(s: State) {
    && (s.cmds.p != Ready <==> s.main.Submitting?)
    && (s.main.Submitting? ==> s.cmds.p.item == s.main.item)
    && (s.dels.c != Waiting <==> s.main == Popping)
    && (s.cmds.c != Waiting ==> s.timer == Draining)
    && (s.dels.p != Ready ==> s.timer.Handing? && s.dels.p.item == s.timer.item)
  }

  // Timers are numbered; the only ones without an expiry time are the array's.
  ghost predicate Tickets(submitted: seq<Item>) {
    forall i :: 0 <= i < |submitted| ==>
      submitted[i].ticket == i && (submitted[i].kind == ARRAY || submitted[i].expire > 0)
  }

  // No timer leaves the heap before a clock reading has reached it.
  ghost predicate OnTime(s: State)
  {
    && (forall x <- Waits(s.dels) :: Reached(s.readings, x.expire))
    && (s.timer.Handing? ==> Reached(s.readings, s.timer.item.expire))
    && (s.main.Deleting? ==> Reached(s.readings, s.main.item.expire))
    && (s.timer.Checking? || s.timer.Handing? ==> Reached(s.readings, s.timer.now))
  }

  ghost predicate Conserved(s: State)
  {
    forall x :: Places(s, x) == Num(s.submitted, x)
  }

  ghost predicate Sound(s: State) {
    Ok(s.cmds) && Ok(s.dels) && Threads(s) && Tickets(s.submitted) && (s.submitted != [] ==> s.ttl)
  }

  ghost predicate Inv(s: State) {
    Sound(s) && Conserved(s) && OnTime(s)
  }

  lemma {:induction false} StartInv(ttl: bool, tables: map<int, T.Table>, slots: seq<Slot<Item>>)
    requires |slots| == SIZE
    ensures Inv(Start(ttl, tables, slots))
  {
    StartsOk(slots);
  }

  lemma {:induction false} ReachedStays(readings: seq<int>, now: int, time: int)
    requires Reached(readings, time)
    ensures Reached(readings + [now], time)
  {
    var i :| 0 <= i < |readings| && time <= readings[i];
    assert (readings + [now])[i] == readings[i];
  }

  // -------------------------------------------------------- steps keep it

  lemma {:induction false} SetSound(s: State, kind: int, key: Bytes, value: Bytes, expire: int, copied: bool)
    requires Sound(s) && s.main == Free
    ensures Sound(ApplySet(s, kind, key, value, expire, copied))
  {
    hide Ok;
    PushBegins(s.cmds, Item(|s.submitted|, kind, key, Stored(s, kind, expire)));
  }

  lemma {:induction false} PushSound(s: State)
    requires Sound(s) && s.main.Submitting?
    ensures Sound(ApplyMain(s, PushStep))
  {
    hide Ok, ProducerStep, Tickets;
    ProducerKeepsOk(s.cmds);
    ProducerPutsLast(s.cmds);
  }

  lemma {:induction false} PopSound(s: State)
    requires Sound(s) && s.main == Popping
    ensures Sound(ApplyMain(s, PopStep))
  {
    hide Ok, ConsumerStep, Tickets;
    ConsumerKeepsOk(s.dels);
    ConsumerTakesFirst(s.dels);
  }

  lemma {:induction false} DrainSound(s: State)
    requires Sound(s) && s.timer == Draining
    ensures Sound(ApplyTimer(s, DrainStep))
  {
    hide Ok, ConsumerStep, Tickets;
    if s.cmds.c == Waiting { PopBegins(s.cmds); }
    ConsumerKeepsOk(s.cmds);
    ConsumerTakesFirst(s.cmds);
  }

  lemma {:induction false} HandSound(s: State)
    requires Sound(s) && s.timer.Handing?
    ensures Sound(ApplyTimer(s, HandStep))
  {
    hide Ok, ProducerStep, Tickets;
    if s.dels.p == Ready { PushBegins(s.dels, s.timer.item); }
    ProducerKeepsOk(s.dels);
    ProducerPutsLast(s.dels);
  }

  lemma {:induction false} OtherSound(s: State, step: Step)
    requires Sound(s) && !step.Set? && step !in {PushStep, PopStep, DrainStep, HandStep}
    ensures Sound(Apply(s, step))
  {
    hide Ok, Tickets;
    if step == BeginPop && s.main == Free { PopBegins(s.dels); }
    if step.Take? && s.timer.Checking? { PushBegins(s.dels, step.item); }
  }

  // ---------------------------------------------------------- conservation

  lemma {:induction false} OneMore(a: seq<Item>, b: seq<Item>, y: Item, x: Item)
    requires a == b + [y] || a == [y] + b
    ensures Num(a, x) == Num(b, x) + One(x == y)
  {}

  ghost predicate SamePlaces(s: State, s': State, x: Item) {
    Places(s', x) - Num(s'.submitted, x) == Places(s, x) - Num(s.submitted, x)
  }

  lemma {:induction false} SetConserves(s: State, kind: int, key: Bytes, value: Bytes, expire: int, copied: bool, x: Item)
    requires s.main == Free
    ensures SamePlaces(s, ApplySet(s, kind, key, value, expire, copied), x)
  {
    var item := Item(|s.submitted|, kind, key, Stored(s, kind, expire));
    hide Waits, Spsc.BeginPush, T.Set, Num;
    BeginningsMoveNothing(s.cmds, item);
    OneMore(s.submitted + [item], s.submitted, item, x);
  }

  lemma {:induction false} PushConserves(s: State, x: Item)
    requires Sound(s) && s.main.Submitting?
    ensures SamePlaces(s, ApplyMain(s, PushStep), x)
  {
    hide Ok, ProducerStep, Tickets, Waits, Num;
    ProducerPutsLast(s.cmds);
    var r, y := ProducerStep(s.cmds).0, s.main.item;
    if Waits(r) == Waits(s.cmds) + [y] { OneMore(Waits(r), Waits(s.cmds), y, x); }
    OneMore(s.freed + [y], s.freed, y, x);
  }

  lemma {:induction false} PopConserves(s: State, x: Item)
    requires Sound(s) && s.main == Popping
    ensures SamePlaces(s, ApplyMain(s, PopStep), x)
  {
    hide Ok, ConsumerStep, Tickets, Waits, Num;
    ConsumerTakesFirst(s.dels);
    var (r, o) := ConsumerStep(s.dels);
    if o.Got? { OneMore(Waits(s.dels), Waits(r), o.item, x); }
  }

  lemma {:induction false} DrainConserves(s: State, x: Item)
    requires Sound(s) && s.timer == Draining
    ensures SamePlaces(s, ApplyTimer(s, DrainStep), x)
  {
    hide Ok, ConsumerStep, Tickets, Waits, Num, Spsc.BeginPop;
    BeginningsMoveNothing(s.cmds, Item(0, 0, [], 0));
    ConsumerTakesFirst(s.cmds);
    var (r, o) := ConsumerStep(s.cmds);
    if o.Got? { OneMore(Waits(s.cmds), Waits(r), o.item, x); }
  }

  lemma {:induction false} HandConserves(s: State, x: Item)
    requires Sound(s) && s.timer.Handing?
    ensures SamePlaces(s, ApplyTimer(s, HandStep), x)
  {
    hide Ok, ProducerStep, Tickets, Waits, Num, Spsc.BeginPush;
    var y := s.timer.item;
    BeginningsMoveNothing(s.dels, y);
    if s.dels.p != Ready {
      ProducerPutsLast(s.dels);
      HandMoves(s, y, x);
    }
  }

  lemma {:induction false} HandMoves(s: State, y: Item, x: Item)
    requires s.timer.Handing? && s.timer.item == y && s.dels.p != Ready
    requires var (r, o) := ProducerStep(s.dels);
      Waits(r) == if o == Done then Waits(s.dels) + [y] else Waits(s.dels)
    ensures SamePlaces(s, ApplyTimer(s, HandStep), x)
  {
    hide ProducerStep, Waits, Num;
    var (r, o) := ProducerStep(s.dels);
    if o == Done { OneMore(Waits(r), Waits(s.dels), y, x); }
  }

  lemma {:induction false} TakeConserves(s: State, item: Item, x: Item)
    ensures SamePlaces(s, ApplyTimer(s, Take(item)), x)
  {
    hide Waits, Num, Spsc.BeginPush, First;
    BeginningsMoveNothing(s.dels, item);
  }

  lemma {:induction false} DeleteConserves(s: State, hit: bool, x: Item)
    requires s.main.Deleting?
    ensures SamePlaces(s, ApplyDelete(s, s.main.item, hit), x)
  {
    hide Waits, Num, T.AfterTimer;
    OneMore(s.freed + [s.main.item], s.freed, s.main.item, x);
  }

  lemma {:induction false} BeginPopConserves(s: State, x: Item)
    ensures SamePlaces(s, ApplyMain(s, BeginPop), x)
  {
    hide Waits, Num, Spsc.BeginPop;
    BeginningsMoveNothing(s.dels, x);
  }

  // --------------------------------------------------------------- on time

  lemma {:induction false} PopOnTime(s: State)
    requires Sound(s) && OnTime(s) && s.main == Popping
    ensures OnTime(ApplyMain(s, PopStep))
  {
    hide Ok, ConsumerStep, Tickets, Waits, Reached;
    ConsumerTakesFirst(s.dels);
    var (r, o) := ConsumerStep(s.dels);
    if o.Got? { assert o.item in Waits(s.dels); }
  }

  lemma {:induction false} HandOnTime(s: State)
    requires Sound(s) && OnTime(s) && s.timer.Handing?
    ensures OnTime(ApplyTimer(s, HandStep))
  {
    hide Ok, ProducerStep, Tickets, Waits, Reached, Spsc.BeginPush;
    BeginningsMoveNothing(s.dels, s.timer.item);
    ProducerPutsLast(s.dels);
  }

  lemma {:induction false} TakeOnTime(s: State, item: Item)
    requires OnTime(s)
    ensures OnTime(ApplyTimer(s, Take(item)))
  {
    hide Waits, Spsc.BeginPush, First;
    BeginningsMoveNothing(s.dels, item);
  }

  lemma {:induction false} ReadOnTime(s: State, now: int)
    requires OnTime(s)
    ensures OnTime(ApplyTimer(s, ReadClock(now)))
  {
    hide Waits;
    assert Reached(s.readings + [now], now) by { assert (s.readings + [now])[|s.readings|] == now; }
    forall time | Reached(s.readings, time) ensures Reached(s.readings + [now], time) {
      ReachedStays(s.readings, now, time);
    }
  }

  // ------------------------------------------------------- every reachable state

  lemma {:induction false} StepSound(s: State, step: Step)
    requires Sound(s)
    ensures Sound(Apply(s, step))
  {
    hide Sound;
    match step {
      case Set(kind, key, value, expire, copied) =>
        if s.main == Free { SetSound(s, kind, key, value, expire, copied); }
      case PushStep => if s.main.Submitting? { PushSound(s); }
      case PopStep => if s.main == Popping { PopSound(s); }
      case DrainStep => if s.timer == Draining { DrainSound(s); }
      case HandStep => if s.timer.Handing? { HandSound(s); }
      case _ => OtherSound(s, step);
    }
  }

  lemma {:induction false} StepConserves(s: State, step: Step, x: Item)
    requires Sound(s)
    ensures SamePlaces(s, Apply(s, step), x)
  {
    hide Sound, Places;
    match step {
      case Set(kind, key, value, expire, copied) =>
        if s.main == Free { SetConserves(s, kind, key, value, expire, copied, x); }
      case PushStep => if s.main.Submitting? { PushConserves(s, x); }
      case BeginPop => BeginPopConserves(s, x);
      case PopStep => if s.main == Popping { PopConserves(s, x); }
      case Delete(hit) => if s.main.Deleting? { DeleteConserves(s, hit, x); }
      case DrainStep => if s.timer == Draining { DrainConserves(s, x); }
      case Take(item) => TakeConserves(s, item, x);
      case HandStep => if s.timer.Handing? { HandConserves(s, x); }
      case _ => PassiveConserves(s, step, x);
    }
  }

  lemma {:induction false} PassiveConserves(s: State, step: Step, x: Item)
    requires step.Get? || step.Del? || step.ReadClock? || step == Quiet
    ensures SamePlaces(s, Apply(s, step), x)
  {
    hide Waits, Num;
  }

  lemma {:induction false} StepOnTime(s: State, step: Step)
    requires Sound(s) && OnTime(s)
    ensures OnTime(Apply(s, step))
  {
    hide Sound, Waits;
    match step {
      case PopStep => if s.main == Popping { PopOnTime(s); }
      case HandStep => if s.timer.Handing? { HandOnTime(s); }
      case Take(item) => TakeOnTime(s, item);
      case ReadClock(now) => ReadOnTime(s, now);
      case _ => QuietOnTime(s, step);
    }
  }

  lemma {:induction false} QuietOnTime(s: State, step: Step)
    requires OnTime(s) && step !in {PopStep, HandStep} && !step.Take? && !step.ReadClock?
    ensures OnTime(Apply(s, step))
  {
    hide Waits, Reached, ProducerStep, ConsumerStep, Spsc.BeginPop, Spsc.BeginPush, ApplySet, ApplyDelete;
    BeginningsMoveNothing(s.dels, Item(0, 0, [], 0));
    match step {
      case Set(_, _, _, _, _) => SetOnTime(s, step);
      case Delete(hit) => DeleteOnTime(s, hit);
      case _ =>
    }
  }

  lemma {:induction false} DeleteOnTime(s: State, hit: bool)
    requires OnTime(s)
    ensures OnTime(ApplyMain(s, Delete(hit)))
  {
    hide Waits, Reached, T.AfterTimer;
  }

  lemma {:induction false} SetOnTime(s: State, step: Step)
    requires OnTime(s) && step.Set?
    ensures OnTime(Apply(s, step))
  {
    hide Waits, Reached, Spsc.BeginPush, T.Set;
  }

  lemma {:induction false} StepKeeps(s: State, step: Step)
    requires Inv(s)
    ensures Inv(Apply(s, step))
  {
    hide Sound, Apply, Places, OnTime;
    StepSound(s, step);
    StepOnTime(s, step);
    forall x ensures Places(Apply(s, step), x) == Num(Apply(s, step).submitted, x) {
      StepConserves(s, step, x);
      assert Places(s, x) == Num(s.submitted, x);
    }
  }

  lemma {:induction false} Reachable(ttl: bool, tables: map<int, T.Table>, slots: seq<Slot<Item>>, steps: seq<Step>)
    requires |slots| == SIZE
    ensures Inv(Run(Start(ttl, tables, slots), steps))
    decreases |steps|
  {
    hide Inv, Start, Apply;
    if steps == [] {
      StartInv(ttl, tables, slots);
    } else {
      Reachable(ttl, tables, slots, steps[..|steps| - 1]);
      StepKeeps(Run(Start(ttl, tables, slots), steps[..|steps| - 1]), steps[|steps| - 1]);
    }
  }

  // Every timer ever made is in exactly one place, and nothing else is in any:
  // so its key is freed at most once, and not while it is anywhere else.
  lemma {:induction false} InOnePlace(s: State, x: Item)
    requires Inv(s)
    ensures Places(s, x) == One(x in s.submitted)
  {
    assert Places(s, x) == Num(s.submitted, x);
    hide Places, OnTime, Threads, Ok;
    AtMostOnce(s.submitted, x, |s.submitted|);
    assert s.submitted[..|s.submitted|] == s.submitted;
  }

  lemma {:induction false} AtMostOnce(submitted: seq<Item>, x: Item, n: nat)
    requires Tickets(submitted) && n <= |submitted|
    ensures Num(submitted[..n], x) == One(x in submitted[..n])
  {
    if n > 0 {
      AtMostOnce(submitted, x, n - 1);
      OneMore(submitted[..n], submitted[..n - 1], submitted[n - 1], x);
    }
  }

  // The deletion step removes at most the entry of its timer, and that one only
  // while its expiry time is still the timer's, which a clock reading has
  // reached; one without expiry time it removes only from the array.
  lemma {:induction false} TimerRemovesOnlyDue(s: State, hit: bool, kind: int, k: Bytes)
    requires Inv(s) && s.main.Deleting? && kind in s.tables && k in s.tables[kind]
    ensures var t := ApplyDelete(s, s.main.item, hit).tables;
      kind in t &&
      if k in t[kind] then t[kind][k] == s.tables[kind][k]
      else
        && kind == s.main.item.kind && k == s.main.item.key
        && s.tables[kind][k].expire == s.main.item.expire
        && Reached(s.readings, s.tables[kind][k].expire)
        && s.ttl && (kind == ARRAY || s.tables[kind][k].expire > 0)
  {
    hide Ok, Threads;
    var item := s.main.item;
    InOnePlace(s, item);
    hide Num, Waits;
    assert item in s.submitted;
  }

  // ------------------------------------------- a timer's way, step by step

  function Repeat(s: State, step: Step, n: nat): State {
    if n == 0 then s else Apply(Repeat(s, step, n - 1), step)
  }

  ghost predicate AtRest(s: State) {
    && Ok(s.cmds) && Ok(s.dels) && s.main == Free && s.timer == Draining && s.heap == multiset{}
    && s.cmds.p == Ready && s.cmds.c == Waiting && s.dels.p == Ready && s.dels.c == Waiting
    && Waits(s.cmds) == [] && Waits(s.dels) == []
  }

  lemma {:induction false} Submitted(s: State, item: Item)
    requires Ok(s.cmds) && s.cmds.p == Ready && Waits(s.cmds) == []
    ensures var b := Spsc.BeginPush(s.cmds, item);
      && Repeat(s.(main := Submitting(item), cmds := b), PushStep, 4) == s.(main := Free, cmds := Produce(b, 4))
      && Ok(Produce(b, 4)) && Produce(b, 4).c == s.cmds.c && Waits(Produce(b, 4)) == [item]
  {
    PushAlone(s.cmds, item);
    var b := Spsc.BeginPush(s.cmds, item);
    var s0 := s.(main := Submitting(item), cmds := b);
    hide Ok, ProducerStep, Spsc.BeginPush;
    assert Produce(b, 1) == ProducerStep(b).0 && Repeat(s0, PushStep, 1) == s0.(cmds := Produce(b, 1));
    assert Produce(b, 2) == ProducerStep(Produce(b, 1)).0 && Repeat(s0, PushStep, 2) == s0.(cmds := Produce(b, 2));
    assert Produce(b, 3) == ProducerStep(Produce(b, 2)).0 && Repeat(s0, PushStep, 3) == s0.(cmds := Produce(b, 3));
    assert Produce(b, 4) == ProducerStep(Produce(b, 3)).0;
  }

  lemma {:induction false} Handed(s: State)
    requires s.timer.Handing? && s.dels.p == Ready && Ok(s.dels) && Waits(s.dels) == []
    ensures var b := Spsc.BeginPush(s.dels, s.timer.item);
      && Repeat(s.(dels := b), HandStep, 4) == s.(timer := Checking(s.timer.now), dels := Produce(b, 4))
      && Ok(Produce(b, 4)) && Produce(b, 4).c == s.dels.c && Waits(Produce(b, 4)) == [s.timer.item]
  {
    PushAlone(s.dels, s.timer.item);
    var b := Spsc.BeginPush(s.dels, s.timer.item);
    var s0 := s.(dels := b);
    assert b.p != Ready;
    hide Ok, ProducerStep, Spsc.BeginPush;
    assert Produce(b, 1) == ProducerStep(b).0 && Repeat(s0, HandStep, 1) == s0.(dels := Produce(b, 1));
    assert Produce(b, 2) == ProducerStep(Produce(b, 1)).0 && Repeat(s0, HandStep, 2) == s0.(dels := Produce(b, 2));
    assert Produce(b, 3) == ProducerStep(Produce(b, 2)).0 && Repeat(s0, HandStep, 3) == s0.(dels := Produce(b, 3));
    assert Produce(b, 4) == ProducerStep(Produce(b, 3)).0;
  }

  lemma {:induction false} Drained(s: State, item: Item)
    requires Ok(s.cmds) && s.timer == Draining && s.cmds.c == Waiting && Waits(s.cmds) == [item]
    ensures var q := Consume(Spsc.BeginPop(s.cmds), 4);
      && Ok(q) && q.c == Waiting && Waits(q) == []
      && Repeat(s, DrainStep, 5) == s.(cmds := q, heap := s.heap + multiset{item})
  {
    PopAlone(s.cmds);
    var b := Spsc.BeginPop(s.cmds);
    assert b.c != Waiting;
    hide Ok, ConsumerStep, Spsc.BeginPop;
    assert Repeat(s, DrainStep, 0) == s && Repeat(s, DrainStep, 1) == s.(cmds := b);
    assert Consume(b, 1) == ConsumerStep(b).0 && Repeat(s, DrainStep, 2) == s.(cmds := Consume(b, 1));
    assert Consume(b, 2) == ConsumerStep(Consume(b, 1)).0 && Repeat(s, DrainStep, 3) == s.(cmds := Consume(b, 2));
    assert Consume(b, 3) == ConsumerStep(Consume(b, 2)).0 && Repeat(s, DrainStep, 4) == s.(cmds := Consume(b, 3));
    assert Consume(b, 4) == ConsumerStep(Consume(b, 3)).0;
  }

  lemma {:induction false} Emptied(s: State)
    requires Ok(s.cmds) && s.timer == Draining && s.cmds.c == Waiting && Waits(s.cmds) == []
    ensures Repeat(s, DrainStep, 3) == s.(timer := Clock)
  {
    PopNothing(s.cmds);
    var b := Spsc.BeginPop(s.cmds);
    assert b.c != Waiting;
    hide Ok, ConsumerStep, Spsc.BeginPop;
    assert Repeat(s, DrainStep, 0) == s && Repeat(s, DrainStep, 1) == s.(cmds := b);
    assert Consume(b, 1) == ConsumerStep(b).0 && Repeat(s, DrainStep, 2) == s.(cmds := Consume(b, 1));
    assert Consume(b, 2) == ConsumerStep(Consume(b, 1)).0;
  }

  lemma {:induction false} Popped(s: State, item: Item)
    requires Ok(s.dels) && s.main == Popping && s.dels.c == Waiting && Waits(s.dels) == [item]
    ensures var b := Spsc.BeginPop(s.dels);
      Repeat(s.(dels := b), PopStep, 4) == s.(main := Deleting(item), dels := Consume(b, 4))
  {
    PopAlone(s.dels);
    var b := Spsc.BeginPop(s.dels);
    var s0 := s.(dels := b);
    hide Ok, ConsumerStep, Spsc.BeginPop;
    assert Repeat(s0, PopStep, 0) == s0;
    assert Consume(b, 1) == ConsumerStep(b).0 && Repeat(s0, PopStep, 1) == s0.(dels := Consume(b, 1));
    assert Consume(b, 2) == ConsumerStep(Consume(b, 1)).0 && Repeat(s0, PopStep, 2) == s0.(dels := Consume(b, 2));
    assert Consume(b, 3) == ConsumerStep(Consume(b, 2)).0 && Repeat(s0, PopStep, 3) == s0.(dels := Consume(b, 3));
    assert Consume(b, 4) == ConsumerStep(Consume(b, 3)).0;
  }

  // Both threads take their turn: the timer thread drains its queue, reads the
  // clock and hands the timer on; the main thread takes it and deletes.
  function TimerTurn(s: State, item: Item, now: int): State {
    Repeat(Apply(Apply(Repeat(Repeat(s, DrainStep, 5), DrainStep, 3), ReadClock(now)), Take(item)), HandStep, 4)
  }

  function MainTurn(s: State): State {
    Apply(Repeat(Apply(s, BeginPop), PopStep, 4), Delete(true))
  }

  predicate Has(s: State, kind: int, key: Bytes) {
    kind in s.tables && key in s.tables[kind]
  }

  ghost predicate Queued(s: State, item: Item) {
    && s.main == Free && s.timer == Draining && s.heap == multiset{}
    && Ok(s.cmds) && s.cmds.c == Waiting && Waits(s.cmds) == [item]
    && Ok(s.dels) && s.dels.p == Ready && s.dels.c == Waiting && Waits(s.dels) == []
  }

  lemma {:induction false} TimerTakesTurn(s: State, item: Item, now: int)
    requires Queued(s, item) && item.expire <= now
    ensures var s' := TimerTurn(s, item, now);
      && s'.main == Free && s'.tables == s.tables && Ok(s'.dels) && s'.dels.c == Waiting && Waits(s'.dels) == [item]
  {
    Drained(s, item);
    var s1 := s.(cmds := Consume(Spsc.BeginPop(s.cmds), 4), heap := multiset{item});
    Emptied(s1);
    DueIsTaken(s1.(timer := Clock), item, now);
    var s2 := s1.(heap := multiset{}, timer := Handing(now, item), readings := s.readings + [now]);
    Handed(s2);
    hide Ok, Repeat, Apply, Consume, Produce, Spsc.BeginPop, Spsc.BeginPush, Waits;
    assert s.heap + multiset{item} == multiset{item};
  }

  lemma {:induction false} DueIsTaken(s: State, item: Item, now: int)
    requires s.timer == Clock && s.heap == multiset{item} && item.expire <= now
    ensures Apply(Apply(s, ReadClock(now)), Take(item)) ==
      s.(heap := multiset{}, timer := Handing(now, item), readings := s.readings + [now],
         dels := Spsc.BeginPush(s.dels, item))
  {
    hide Spsc.BeginPush;
    assert multiset{item} - multiset{item} == multiset{};
  }

  lemma {:induction false} MainTakesTurn(s: State, item: Item)
    requires s.main == Free && Ok(s.dels) && s.dels.c == Waiting && Waits(s.dels) == [item]
    requires item.kind in s.tables && item.kind !in {HASH, HASH2}
    ensures MainTurn(s).tables == s.tables[item.kind := T.AfterTimer(s.tables[item.kind], item.key, item.expire)]
  {
    Popped(s.(main := Popping), item);
    hide Ok, Repeat, Consume, Spsc.BeginPop, Waits;
  }

  // A timer that waits alone goes all its way as soon as the timer thread and
  // then the main thread have taken their turns after its time: of an engine
  // other than the hash tables its entry is gone exactly if it still has the
  // timer's expiry time. Nothing else changes, and while its time has not come
  // the timer cannot leave the heap.
  lemma {:induction false} TimerRemovesDue(s: State, item: Item, now: int, kind: int, k: Bytes)
    requires Queued(s, item) && item.kind in s.tables && item.kind !in {HASH, HASH2} && Has(s, kind, k)
    ensures item.expire <= now ==>
      (Has(MainTurn(TimerTurn(s, item, now)), kind, k) <==>
         !(kind == item.kind && k == item.key && s.tables[kind][k].expire == item.expire))
    ensures item.expire > now ==>
      var waiting := Apply(Repeat(Repeat(s, DrainStep, 5), DrainStep, 3), ReadClock(now));
      item in waiting.heap && Apply(waiting, Take(item)) == waiting && Apply(waiting, Quiet).timer == Draining
  {
    if item.expire <= now {
      TimerTakesTurn(s, item, now);
      hide Queued, TimerTurn, MainTurn;
      MainTakesTurn(TimerTurn(s, item, now), item);
    } else {
      NotYet(s, item, now);
    }
  }

  lemma {:induction false} NotYet(s: State, item: Item, now: int)
    requires Queued(s, item) && item.expire > now
    ensures var waiting := Apply(Repeat(Repeat(s, DrainStep, 5), DrainStep, 3), ReadClock(now));
      item in waiting.heap && Apply(waiting, Take(item)) == waiting && Apply(waiting, Quiet).timer == Draining
  {
    Drained(s, item);
    var s1 := s.(cmds := Consume(Spsc.BeginPop(s.cmds), 4), heap := multiset{item});
    Emptied(s1);
    NotDueStays(s1.(timer := Clock), item, now);
    hide Ok, Repeat, Apply, Consume, Spsc.BeginPop, Waits;
    assert s.heap + multiset{item} == multiset{item};
  }

  lemma {:induction false} NotDueStays(s: State, item: Item, now: int)
    requires s.timer == Clock && s.heap == multiset{item} && item.expire > now
    ensures var waiting := Apply(s, ReadClock(now));
      item in waiting.heap && Apply(waiting, Take(item)) == waiting && Apply(waiting, Quiet).timer == Draining
  {}

  // A command that sets an entry of any engine with a timer leaves that timer
  // waiting.
  lemma {:induction false} SetQueues(s: State, kind: int, key: Bytes, value: Bytes, expire: int)
    requires AtRest(s) && s.ttl && kind in s.tables && (kind == ARRAY || expire > 0)
    ensures var item, s' := Item(|s.submitted|, kind, key, expire),
                            Repeat(Apply(s, Set(kind, key, value, expire, true)), PushStep, 4);
      Queued(s', item) && s'.tables == s.tables[kind := T.Set(s.tables[kind], key, value, expire)]
  {
    var item := Item(|s.submitted|, kind, key, expire);
    var r := s.(tables := s.tables[kind := T.Set(s.tables[kind], key, value, expire)],
                submitted := s.submitted + [item]);
    Submitted(r, item);
    hide Ok, Repeat, Produce, Spsc.BeginPush;
    assert Apply(s, Set(kind, key, value, expire, true))
      == r.(main := Submitting(item), cmds := Spsc.BeginPush(s.cmds, item));
  }

  // Set with an expiry time, an entry of such an engine is gone when the two
  // threads have taken their turns after that time. The handler for the array is
  // not guarded: there this also holds of a key without an expiry time.
  lemma {:induction false} SetEntryGoes(s: State, kind: int, key: Bytes, value: Bytes, expire: int, now: int)
    requires AtRest(s) && s.ttl && kind in s.tables && kind !in {HASH, HASH2}
    requires (kind == ARRAY || expire > 0) && expire <= now
    ensures var s1 := Repeat(Apply(s, Set(kind, key, value, expire, true)), PushStep, 4);
      var s2 := MainTurn(TimerTurn(s1, Item(|s.submitted|, kind, key, expire), now));
      && Has(s1, kind, key) && s1.tables[kind][key] == T.Entry(value, expire)
      && !Has(s2, kind, key)
  {
    var item := Item(|s.submitted|, kind, key, expire);
    SetQueues(s, kind, key, value, expire);
    hide Queued, AtRest, Ok, Repeat, Apply, TimerTurn, MainTurn;
    var s1 := Repeat(Apply(s, Set(kind, key, value, expire, true)), PushStep, 4);
    TimerRemovesDue(s1, item, now, kind, key);
  }

  // So a key that is set on the array without an expiry time is lost.
  lemma {:induction false} ArrayEntryIsLost(s: State, key: Bytes, value: Bytes, now: int)
    requires AtRest(s) && s.ttl && ARRAY in s.tables && now >= 0
    ensures var s1 := Repeat(Apply(s, Set(ARRAY, key, value, 0, true)), PushStep, 4);
      var s2 := MainTurn(TimerTurn(s1, Item(|s.submitted|, ARRAY, key, 0), now));
      && Has(s1, ARRAY, key) && s1.tables[ARRAY][key] == T.Entry(value, 0)
      && !Has(s2, ARRAY, key)
  {
    hide AtRest, Repeat, Apply, TimerTurn, MainTurn;
    SetEntryGoes(s, ARRAY, key, value, 0, now);
  }

  // ----------------------------------------------------------------- in order

  // Of all timers in the heap the one that is handed on expires first.
  ghost predicate HandsEarliest(s: State) {
    s.timer.Handing? ==> forall x <- s.heap :: s.timer.item.expire <= x.expire
  }

  lemma {:induction false} RunHandsEarliest(ttl: bool, tables: map<int, T.Table>, slots: seq<Slot<Item>>, steps: seq<Step>)
    ensures HandsEarliest(Run(Start(ttl, tables, slots), steps))
    decreases |steps|
  {
    if steps != [] {
      var n := |steps| - 1;
      RunHandsEarliest(ttl, tables, slots, steps[..n]);
      hide Start;
      StepHandsEarliest(Run(Start(ttl, tables, slots), steps[..n]), steps[n]);
    }
  }

  lemma {:induction false} StepHandsEarliest(s: State, step: Step)
    requires HandsEarliest(s)
    ensures HandsEarliest(Apply(s, step))
  {
    hide ProducerStep, ConsumerStep, Spsc.BeginPush, Spsc.BeginPop, T.Set, T.AfterGet, T.AfterTimer;
  }

  // ------------------------------------------------ what a step does to a table

  // A SET stores its entry whether or not a timer is made for it: with its own
  // expiry time under TTL or for the contexts, otherwise with none.
  lemma {:induction false} SetStores(s: State, kind: int, key: Bytes, value: Bytes, expire: int, copied: bool)
    requires s.main == Free && kind in s.tables
    ensures Apply(s, Set(kind, key, value, expire, copied)).tables ==
      s.tables[kind := s.tables[kind][key := T.Entry(value, if s.ttl || kind == 4 then expire else 0)]]
  {}

  // A timer is submitted for it exactly under TTL and, but for the array, with an
  // expiry time, if its key could be copied.
  lemma {:induction false} SetSubmits(s: State, kind: int, key: Bytes, value: Bytes, expire: int, copied: bool)
    requires s.main == Free && kind in s.tables
    ensures var s', item := Apply(s, Set(kind, key, value, expire, copied)), Item(|s.submitted|, kind, key, expire);
      && (s.ttl && copied && (kind == 0 || expire > 0) ==> s'.main == Submitting(item) && s'.submitted == s.submitted + [item])
      && (!(s.ttl && copied && (kind == 0 || expire > 0)) ==> s'.main == Free && s'.submitted == s.submitted)
  {}

  lemma {:induction false} DelRemoves(s: State, kind: int, key: Bytes)
    requires s.main == Free && kind in s.tables
    ensures Apply(s, Del(kind, key)) == s.(tables := s.tables[kind := s.tables[kind] - {key}])
  {}

  // A lookup removes its key exactly if TTL is on and it has a time that has passed.
  lemma {:induction false} GetRemoves(s: State, kind: int, key: Bytes, now: int)
    requires s.main == Free && kind in s.tables
    ensures var t := s.tables[kind];
      Apply(s, Get(kind, key, now)) ==
        if s.ttl && key in t && 0 < t[key].expire < now then s.(tables := s.tables[kind := t - {key}]) else s
  {}

  // The deletion for a timer removes the entry under its key exactly if the entry
  // has the timer's time and, in the hash tables 1 and 4, the key is found there.
  lemma {:induction false} DeleteRemoves(s: State, hit: bool)
    requires s.main.Deleting?
    ensures var item := s.main.item;
      var gone := item.kind in s.tables && (hit || (item.kind != 1 && item.kind != 4))
        && item.key in s.tables[item.kind] && s.tables[item.kind][item.key].expire == item.expire;
      Apply(s, Delete(hit)).tables ==
        if gone then s.tables[item.kind := s.tables[item.kind] - {item.key}] else s.tables
  {}

  // Nothing else changes a table.
  lemma {:induction false} TablesStay(s: State, step: Step)
    requires match step
      case Set(kind, _, _, _, _) => s.main != Free || kind !in s.tables
      case Get(kind, _, _) => s.main != Free || kind !in s.tables
      case Del(kind, _) => s.main != Free || kind !in s.tables
      case Delete(_) => !s.main.Deleting?
      case _ => true
    ensures Apply(s, step).tables == s.tables
  {
    hide ProducerStep, ConsumerStep, Spsc.BeginPush, Spsc.BeginPop, First, NoneDue;
  }

  // ------------------------------------------------------------ any run's tables

  // The tables as the commands alone would leave them: each SET and DEL that the
  // main thread takes, and nothing else.
  function Plainly(s0: State, steps: seq<Step>): map<int, T.Table>
    decreases |steps|
  {
    if steps == [] then s0.tables
    else
      var n := |steps| - 1;
      Commanded(Run(s0, steps[..n]), steps[n], Plainly(s0, steps[..n]))
  }

  function Commanded(u: State, step: Step, m: map<int, T.Table>): map<int, T.Table> {
    match step
    case Set(kind, key, value, expire, _) =>
      if u.main == Free && kind in m
      then m[kind := m[kind][key := T.Entry(value, if u.ttl || kind == 4 then expire else 0)]] else m
    case Del(kind, key) => if u.main == Free && kind in m then m[kind := m[kind] - {key}] else m
    case _ => m
  }

  // A lookup came at a later time.
  ghost predicate LookedUp(steps: seq<Step>, time: int) {
    exists i :: 0 <= i < |steps| && steps[i].Get? && steps[i].now > time
  }

  // An entry may be gone: TTL is on and its time has passed for a lookup or has
  // been reached by the timer thread's clock; or it is one of the array's without
  // a time.
  ghost predicate MayBeGone(u: State, steps: seq<Step>, kind: int, e: T.Entry) {
    u.ttl && (kind == 0 || e.expire > 0) && (Reached(u.readings, e.expire) || LookedUp(steps, e.expire))
  }

  ghost predicate MinusDue(u: State, steps: seq<Step>, m: map<int, T.Table>) {
    && u.tables.Keys == m.Keys
    && forall kind <- m :: OneMinusDue(u, steps, kind, u.tables[kind], m[kind])
  }

  ghost predicate OneMinusDue(u: State, steps: seq<Step>, kind: int, t: T.Table, p: T.Table) {
    && (forall k <- t :: k in p && t[k] == p[k])
    && (forall k <- p :: k !in t ==> MayBeGone(u, steps, kind, p[k]))
  }

  lemma {:induction false} StillMayBeGone(u: State, u': State, steps: seq<Step>, step: Step, kind: int, e: T.Entry)
    requires MayBeGone(u, steps, kind, e) && u'.ttl == u.ttl && u.readings <= u'.readings
    ensures MayBeGone(u', steps + [step], kind, e)
  {
    if Reached(u.readings, e.expire) {
      var i :| 0 <= i < |u.readings| && e.expire <= u.readings[i];
      assert u'.readings[i] == u.readings[i];
    } else {
      var i :| 0 <= i < |steps| && steps[i].Get? && steps[i].now > e.expire;
      assert (steps + [step])[i] == steps[i];
    }
  }

  lemma {:induction false} HistoryGrows(s: State, step: Step)
    ensures Apply(s, step).ttl == s.ttl && s.readings <= Apply(s, step).readings
  {
    hide ProducerStep, ConsumerStep, Spsc.BeginPush, Spsc.BeginPop, First, NoneDue, T.Set, T.AfterGet, T.AfterTimer;
  }

  lemma {:induction false} StaysMinusDue(u: State, u': State, steps: seq<Step>, step: Step, kind: int, t: T.Table, p: T.Table)
    requires OneMinusDue(u, steps, kind, t, p) && u'.ttl == u.ttl && u.readings <= u'.readings
    ensures OneMinusDue(u', steps + [step], kind, t, p)
  {
    hide MayBeGone;
    forall k | k in p && k !in t ensures MayBeGone(u', steps + [step], kind, p[k]) {
      StillMayBeGone(u, u', steps, step, kind, p[k]);
    }
  }

  lemma {:induction false} StepMinusDue(u: State, steps: seq<Step>, step: Step, m: map<int, T.Table>)
    requires Inv(u) && MinusDue(u, steps, m)
    ensures MinusDue(Apply(u, step), steps + [step], Commanded(u, step, m))
  {
    var u' := Apply(u, step);
    HistoryGrows(u, step);
    forall kind | kind in m ensures OneMinusDue(u', steps + [step], kind, u.tables[kind], m[kind]) {
      StaysMinusDue(u, u', steps, step, kind, u.tables[kind], m[kind]);
    }
    hide Apply, Inv, OneMinusDue, MayBeGone, Commanded;
    if step.Delete? && u.main.Deleting? {
      DeleteMinusDue(u, steps, step.hit, m);
      CommandsNothing(u, step, m);
    } else if (step.Set? || step.Get? || step.Del?) && u.main == Free && step.kind in m {
      CommandMinusDue(u, steps, step, m);
    } else {
      TablesStay(u, step);
      CommandsNothing(u, step, m);
    }
  }

  lemma {:induction false} CommandsNothing(u: State, step: Step, m: map<int, T.Table>)
    requires step.Set? || step.Del? ==> u.main != Free || step.kind !in m
    ensures Commanded(u, step, m) == m
  {}

  lemma {:induction false} CommandMinusDue(u: State, steps: seq<Step>, step: Step, m: map<int, T.Table>)
    requires (step.Set? || step.Get? || step.Del?) && u.main == Free && step.kind in m && u.tables.Keys == m.Keys
    requires forall kind <- m :: OneMinusDue(Apply(u, step), steps + [step], kind, u.tables[kind], m[kind])
    requires Apply(u, step).ttl == u.ttl
    ensures MinusDue(Apply(u, step), steps + [step], Commanded(u, step, m))
  {
    hide Apply, OneMinusDue, MayBeGone;
    var u', kind, key := Apply(u, step), step.kind, step.key;
    var t := u.tables[kind];
    match step {
      case Set(_, _, value, expire, copied) =>
        SetStores(u, kind, key, value, expire, copied);
        SetMinusDue(u', steps + [step], kind, t, m[kind], key, u'.tables[kind][key]);
      case Del(_, _) =>
        DelRemoves(u, kind, key);
        DelMinusDue(u', steps + [step], kind, t, m[kind], key);
      case Get(_, _, now) =>
        GetRemoves(u, kind, key, now);
        if u.ttl && key in t && 0 < t[key].expire < now {
          assert (steps + [step])[|steps|] == step;
          LookupMinusDue(u', steps + [step], kind, t, m[kind], key);
        }
    }
  }

  lemma {:induction false} SetMinusDue(u: State, steps: seq<Step>, kind: int, t: T.Table, p: T.Table, key: Bytes, e: T.Entry)
    requires OneMinusDue(u, steps, kind, t, p)
    ensures OneMinusDue(u, steps, kind, t[key := e], p[key := e])
  {}

  lemma {:induction false} DelMinusDue(u: State, steps: seq<Step>, kind: int, t: T.Table, p: T.Table, key: Bytes)
    requires OneMinusDue(u, steps, kind, t, p)
    ensures OneMinusDue(u, steps, kind, t - {key}, p - {key})
  {}

  // An entry that may be gone goes.
  lemma {:induction false} GoneMinusDue(u: State, steps: seq<Step>, kind: int, t: T.Table, p: T.Table, key: Bytes)
    requires OneMinusDue(u, steps, kind, t, p) && key in t && MayBeGone(u, steps, kind, t[key])
    ensures OneMinusDue(u, steps, kind, t - {key}, p)
  {}

  lemma {:induction false} LookupMinusDue(u: State, steps: seq<Step>, kind: int, t: T.Table, p: T.Table, key: Bytes)
    requires OneMinusDue(u, steps, kind, t, p) && key in t && u.ttl && 0 < t[key].expire && LookedUp(steps, t[key].expire)
    ensures OneMinusDue(u, steps, kind, t - {key}, p)
  {
    GoneMinusDue(u, steps, kind, t, p, key);
  }

  lemma {:induction false} DeleteMinusDue(u: State, steps: seq<Step>, hit: bool, m: map<int, T.Table>)
    requires Inv(u) && u.main.Deleting? && u.tables.Keys == m.Keys
    requires forall kind <- m :: OneMinusDue(Apply(u, Delete(hit)), steps + [Delete(hit)], kind, u.tables[kind], m[kind])
    ensures MinusDue(Apply(u, Delete(hit)), steps + [Delete(hit)], m)
  {
    var u', item := Apply(u, Delete(hit)), u.main.item;
    DeleteRemoves(u, hit);
    assert u'.ttl == u.ttl && u'.readings == u.readings && u' == ApplyDelete(u, item, hit);
    if u'.tables != u.tables {
      var t := u.tables[item.kind];
      TimerRemovesOnlyDue(u, hit, item.kind, item.key);
      hide Inv, Apply, ApplyDelete;
      GoneMinusDue(u', steps + [Delete(hit)], item.kind, t, m[item.kind], item.key);
    }
  }

  // After any commands and any interleaving of the two threads each table is
  // what the commands alone would leave, minus entries that were due.
  lemma {:induction false} RunIsMinusDue(ttl: bool, tables: map<int, T.Table>, slots: seq<Slot<Item>>, steps: seq<Step>)
    requires |slots| == SIZE
    ensures var s0 := Start(ttl, tables, slots);
      MinusDue(Run(s0, steps), steps, Plainly(s0, steps))
    decreases |steps|
  {
    hide Inv, Apply, Commanded;
    var s0 := Start(ttl, tables, slots);
    if steps != [] {
      var n := |steps| - 1;
      hide MinusDue, Start;
      RunIsMinusDue(ttl, tables, slots, steps[..n]);
      Reachable(ttl, tables, slots, steps[..n]);
      assert steps[..n] + [steps[n]] == steps;
      StepMinusDue(Run(s0, steps[..n]), steps[..n], steps[n], Plainly(s0, steps[..n]));
    }
  }
}
