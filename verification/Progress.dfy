// Progress of the two threads of expire.c: however their steps interleave, every
// timer that is due is freed once both have moved often enough.
module Progress {
  import opened KvData
  import opened Spsc
  import opened MinHeap
  import opened Expire
  import T = Table

  // How far all timers are from being freed, in moves from place to place.
  ghost function Weight(s: State): nat {
    6 * One(s.main.Submitting?) + 5 * |Waits(s.cmds)| + 4 * |s.heap|
    + 3 * One(s.timer.Handing?) + 2 * |Waits(s.dels)| + One(s.main.Deleting?)
  }

  // No timer has moved.
  ghost predicate Still(s: State, s': State) {
    && Waits(s'.cmds) == Waits(s.cmds) && Waits(s'.dels) == Waits(s.dels) && s'.heap == s.heap
    && (s'.main.Submitting? <==> s.main.Submitting?) && (s'.main.Deleting? <==> s.main.Deleting?)
    && (s'.timer.Handing? <==> s.timer.Handing?) && s'.freed == s.freed && s'.submitted == s.submitted
  }

  // Timers only ever move on.
  ghost predicate MovesOn(s: State, s': State) {
    s'.submitted == s.submitted && s.freed <= s'.freed && (Weight(s') < Weight(s) || Still(s, s'))
  }

  lemma {:induction false} MainMovesOn(s: State, step: Step)
    requires Sound(s) && !step.Set?
    ensures MovesOn(s, ApplyMain(s, step))
  {
    hide Ok, Tickets, ProducerStep, ConsumerStep, Waits, Spsc.BeginPop, Spsc.BeginPush;
    ProducerPutsLast(s.cmds);
    ConsumerTakesFirst(s.dels);
    BeginningsMoveNothing(s.dels, Item(0, 0, [], 0));
  }

  lemma {:induction false} DrainMovesOn(s: State)
    requires Sound(s)
    ensures MovesOn(s, ApplyTimer(s, DrainStep))
  {
    hide Ok, Tickets, ConsumerStep, Waits, Spsc.BeginPop;
    ConsumerTakesFirst(s.cmds);
    BeginningsMoveNothing(s.cmds, Item(0, 0, [], 0));
  }

  lemma {:induction false} HandMovesOn(s: State)
    requires Sound(s) && s.timer.Handing?
    ensures MovesOn(s, ApplyTimer(s, HandStep))
  {
    hide Ok, Tickets, ProducerStep, Waits, Spsc.BeginPush;
    ProducerPutsLast(s.dels);
    BeginningsMoveNothing(s.dels, s.timer.item);
  }

  lemma {:induction false} TakeMovesOn(s: State, item: Item)
    ensures MovesOn(s, ApplyTimer(s, Take(item)))
  {
    hide Waits, Spsc.BeginPush, First;
    BeginningsMoveNothing(s.dels, item);
  }

  lemma {:induction false} TimerMovesOn(s: State, step: Step)
    requires Sound(s)
    ensures MovesOn(s, ApplyTimer(s, step))
  {
    hide Waits, Sound;
    match step {
      case DrainStep => DrainMovesOn(s);
      case HandStep => if s.timer.Handing? { HandMovesOn(s); }
      case Take(item) => TakeMovesOn(s, item);
      case _ =>
    }
  }

  lemma {:induction false} StepMovesOn(s: State, step: Step)
    requires Sound(s) && !step.Set?
    ensures MovesOn(s, Apply(s, step))
  {
    hide Sound, MovesOn;
    MainMovesOn(s, step);
    TimerMovesOn(s, step);
  }

  // ----------------------------------------------------------- the timer thread

  // The step is one that the timer thread takes where it stands.
  predicate TimerMoves(s: State, step: Step) {
    match step
    case DrainStep => s.timer == Draining
    case ReadClock(_) => s.timer == Clock
    case Take(item) => s.timer.Checking? && item in s.heap && item.expire <= s.timer.now && First(s.heap, item)
    case Quiet => s.timer.Checking? && NoneDue(s.heap, s.timer.now)
    case HandStep => s.timer.Handing?
    case _ => false
  }

  // It has something to do that the main thread does not keep it from.
  ghost predicate TimerBusy(s: State, time: int) {
    if s.timer.Handing? then |Waits(s.dels)| < SIZE - 1
    else Waits(s.cmds) != [] || exists x <- s.heap :: x.expire <= time
  }

  // Steps of a pop that are left, if something waits: 6 if it will find nothing
  // since it looked before.
  function PopLeft<T>(c: Consumer<T>): nat {
    match c
    case Waiting => 5
    case TailKnown(_) => 4
    case HeadKnown(tail, head, _) => if tail == head then 6 else 3
    case Reading(_) => 2
    case Read(_, _) => 1
  }

  // Steps of a push that are left, if there is room: 6 if it will be refused
  // since it looked before.
  function PushLeft<T>(p: Producer<T>): nat {
    match p
    case Ready => 5
    case HeadLoaded(_, _) => 4
    case TailLoaded(_, head, tail, _) => if Next(head) == tail then 6 else 3
    case Writing(_, _) => 2
    case Written(_, _) => 1
  }

  // The same for a thread that gives up when there is no room.
  function SubmitLeft<T>(p: Producer<T>): nat {
    match p
    case Ready => 5
    case HeadLoaded(_, _) => 4
    case TailLoaded(_, _, _, _) => 3
    case Writing(_, _) => 2
    case Written(_, _) => 1
  }

  // Moves of the timer thread until a timer moves, at most.
  ghost function TimerLeft(s: State, time: int): (n: nat)
    ensures n <= 8
  {
    match s.timer
    case Handing(_, _) => PushLeft(s.dels.p)
    case Draining =>
      if Waits(s.cmds) == [] then (if s.cmds.c == Waiting then 5 else if s.cmds.c.TailKnown? then 4 else 3)
      else if PopLeft(s.cmds.c) == 6 then 8 else PopLeft(s.cmds.c)
    case Clock => if Waits(s.cmds) == [] then 2 else 7
    case Checking(now) => if Waits(s.cmds) == [] && now >= time then 1 else 6
  }

  lemma {:induction false} PopGetsOn<T>(q: Queue<T>)
    requires Ok(q) && q.c != Waiting && Waits(q) != []
    ensures ConsumerStep(q).1.Got? || PopLeft(ConsumerStep(q).0.c) < PopLeft(q.c)
    ensures ConsumerStep(q).1 == Refused <==> PopLeft(q.c) == 6
    ensures PopLeft(ConsumerStep(q).0.c) < 6
  {
    var r := ConsumerStep(q).0;
    ConsumerKeepsOk(q);
    match q.c {
      case TailKnown(_) => NothingWhenEmpty(r);
      case Reading(_) => NeverTorn(q);
      case _ =>
    }
  }

  lemma {:induction false} PopFindsNothing<T>(q: Queue<T>)
    requires Ok(q) && q.c != Waiting && Waits(q) == []
    ensures q.c.TailKnown? || q.c.HeadKnown?
    ensures q.c.TailKnown? ==> ConsumerStep(q).1 == Busy && ConsumerStep(q).0.c.HeadKnown?
    ensures q.c.HeadKnown? ==> ConsumerStep(q).1 == Refused
  {
    if q.c.HeadKnown? { NothingWhenEmpty(q); }
  }

  lemma {:induction false} PushGetsOn<T>(q: Queue<T>)
    requires Ok(q) && q.p != Ready
    ensures ProducerStep(q).1 == Done || ProducerStep(q).1 == Refused || |Waits(q)| == SIZE - 1
         || PushLeft(ProducerStep(q).0.p) < PushLeft(q.p)
    ensures ProducerStep(q).1 == Refused ==> PushLeft(q.p) == 6 && ProducerStep(q).0.p == Ready
  {
    var r := ProducerStep(q).0;
    ProducerKeepsOk(q);
    if q.p.HeadLoaded? { RefusedWhenFull(r); }
  }

  lemma {:induction false} DrainGetsOn(s: State, time: int)
    requires Sound(s) && s.timer == Draining && TimerBusy(s, time)
    ensures var s' := ApplyTimer(s, DrainStep);
      Weight(s') < Weight(s) || TimerLeft(s', time) < TimerLeft(s, time)
  {
    TimerMovesOn(s, DrainStep);
    hide Ok, Tickets, ConsumerStep, Waits;
    BeginningsMoveNothing(s.cmds, Item(0, 0, [], 0));
    ConsumerTakesFirst(s.cmds);
    if s.cmds.c != Waiting {
      if Waits(s.cmds) == [] { PopFindsNothing(s.cmds); } else { PopGetsOn(s.cmds); }
    }
  }

  lemma {:induction false} HandGetsOn(s: State, time: int)
    requires Sound(s) && s.timer.Handing? && TimerBusy(s, time)
    ensures var s' := ApplyTimer(s, HandStep);
      Weight(s') < Weight(s) || TimerLeft(s', time) < TimerLeft(s, time)
  {
    TimerMovesOn(s, HandStep);
    hide Ok, Tickets, ProducerStep, Waits;
    BeginningsMoveNothing(s.dels, s.timer.item);
    ProducerPutsLast(s.dels);
    if s.dels.p != Ready { PushGetsOn(s.dels); }
  }

  lemma {:induction false} TimerGetsOn(s: State, step: Step, time: int)
    requires Sound(s) && TimerMoves(s, step) && TimerBusy(s, time) && (step.ReadClock? ==> step.now >= time)
    ensures var s' := Apply(s, step);
      Weight(s') < Weight(s) || TimerLeft(s', time) < TimerLeft(s, time)
  {
    match step {
      case DrainStep => DrainGetsOn(s, time);
      case HandStep => HandGetsOn(s, time);
      case Take(item) =>
        hide Sound, Waits, Spsc.BeginPush, First;
        BeginningsMoveNothing(s.dels, item);
      case _ =>
        hide Sound, Waits;
    }
  }

  // The main thread does not set it back.
  lemma {:induction false} TimerNotSetBack(s: State, step: Step, time: int)
    requires Sound(s) && !step.Set? && !TimerMoves(s, step)
    ensures var s' := Apply(s, step);
      Weight(s') < Weight(s) || TimerLeft(s', time) == TimerLeft(s, time)
  {
    match step {
      case PushStep => PushLeavesTimer(s, time);
      case PopStep => PopLeavesTimer(s, time);
      case _ => hide Sound, Waits, Weight, PopLeft, PushLeft, First, NoneDue;
    }
  }

  lemma {:induction false} PushLeavesTimer(s: State, time: int)
    requires Sound(s)
    ensures var s' := ApplyMain(s, PushStep);
      Weight(s') < Weight(s) || TimerLeft(s', time) == TimerLeft(s, time)
  {
    MainMovesOn(s, PushStep);
    hide Ok, Tickets, ProducerStep, Waits, PopLeft, PushLeft, Weight;
    ProducerPutsLast(s.cmds);
  }

  lemma {:induction false} PopLeavesTimer(s: State, time: int)
    requires Sound(s)
    ensures TimerLeft(ApplyMain(s, PopStep), time) == TimerLeft(s, time)
  {
    hide Ok, Tickets, ConsumerStep, Waits, PopLeft, PushLeft;
    ConsumerTakesFirst(s.dels);
  }

  // ------------------------------------------------------------ the main thread

  predicate MainMoves(s: State, step: Step) {
    match step
    case PushStep => s.main.Submitting?
    case BeginPop => s.main == Free
    case PopStep => s.main == Popping
    case Delete(_) => s.main.Deleting?
    case _ => false
  }

  ghost predicate MainBusy(s: State) {
    s.main.Submitting? || s.main.Deleting? || Waits(s.dels) != []
  }

  ghost function MainLeft(s: State): (n: nat)
    ensures n <= 6
  {
    match s.main
    case Submitting(_) => SubmitLeft(s.cmds.p)
    case Deleting(_) => 1
    case Free => 5
    case Popping => PopLeft(s.dels.c)
  }

  lemma {:induction false} MainGetsOn(s: State, step: Step)
    requires Sound(s) && MainMoves(s, step) && MainBusy(s)
    ensures var s' := Apply(s, step);
      Weight(s') < Weight(s) || MainLeft(s') < MainLeft(s)
  {
    MainMovesOn(s, step);
    hide Ok, Tickets, ProducerStep, ConsumerStep, Waits;
    match step {
      case PushStep =>
        ProducerPutsLast(s.cmds);
        SubmitGetsOn(s.cmds);
      case PopStep =>
        ConsumerTakesFirst(s.dels);
        PopGetsOn(s.dels);
      case _ =>
    }
  }

  // A push of the main thread ends even if there is no room.
  lemma {:induction false} SubmitGetsOn<T>(q: Queue<T>)
    requires Ok(q) && q.p != Ready
    ensures ProducerStep(q).1 == Done || ProducerStep(q).1 == Refused || SubmitLeft(ProducerStep(q).0.p) < SubmitLeft(q.p)
  {}

  lemma {:induction false} MainNotSetBack(s: State, step: Step)
    requires Sound(s) && !step.Set? && !MainMoves(s, step)
    ensures var s' := Apply(s, step);
      Weight(s') < Weight(s) || MainLeft(s') == MainLeft(s)
  {
    StepMovesOn(s, step);
    hide Ok, Tickets, ProducerStep, ConsumerStep, Waits, PopLeft, SubmitLeft, First, NoneDue, Weight;
    ConsumerTakesFirst(s.cmds);
    ProducerPutsLast(s.dels);
  }

  // A thread always has exactly one kind of step to take.
  lemma {:induction false} BothCanMove(s: State, now: int) returns (main: Step, timer: Step)
    ensures MainMoves(s, main) && !main.Set? && !main.ReadClock?
    ensures TimerMoves(s, timer) && !timer.Set? && (timer.ReadClock? ==> timer.now == now)
  {
    main := match s.main case Free => BeginPop case Submitting(_) => PushStep case Popping => PopStep case Deleting(_) => Delete(true);
    match s.timer {
      case Draining => timer := DrainStep;
      case Clock => timer := ReadClock(now);
      case Handing(_, _) => timer := HandStep;
      case Checking(t) =>
        if NoneDue(s.heap, t) {
          timer := Quiet;
        } else {
          timer := Take(Earliest(s.heap));
        }
    }
  }

  lemma {:induction false} EarliestExists(heap: multiset<Item>)
    requires heap != multiset{}
    ensures exists x <- heap :: First(heap, x)
    decreases |heap|
  {
    var y :| y in heap;
    var rest := heap - multiset{y};
    if rest != multiset{} {
      EarliestExists(rest);
      var x :| x in rest && First(rest, x);
      var z := if y.expire <= x.expire then y else x;
      forall w | w in heap ensures z.expire <= w.expire { assert w == y || w in rest; }
      assert z in heap && First(heap, z);
    } else {
      forall w | w in heap ensures w == y { assert w == y || w in rest; }
      assert First(heap, y);
    }
  }

  ghost function Earliest(heap: multiset<Item>): (x: Item)
    requires heap != multiset{}
    ensures x in heap && First(heap, x)
  {
    EarliestExists(heap);
    var x :| x in heap && First(heap, x);
    x
  }

  // ------------------------------------------------------------------- rounds

  // No new timers, and the clock has passed the given time.
  predicate Calm(steps: seq<Step>, time: int) {
    forall step <- steps :: !step.Set? && (step.ReadClock? ==> step.now >= time)
  }

  function CountTimer(s: State, steps: seq<Step>): nat
    decreases |steps|
  {
    if steps == [] then 0
    else
      var n := |steps| - 1;
      CountTimer(s, steps[..n]) + One(TimerMoves(Run(s, steps[..n]), steps[n]))
  }

  function CountMain(s: State, steps: seq<Step>): nat
    decreases |steps|
  {
    if steps == [] then 0
    else
      var n := |steps| - 1;
      CountMain(s, steps[..n]) + One(MainMoves(Run(s, steps[..n]), steps[n]))
  }

  lemma {:induction false} RunSound(s: State, steps: seq<Step>)
    requires Sound(s)
    ensures Sound(Run(s, steps))
    decreases |steps|
  {
    hide Sound, Apply;
    if steps != [] {
      RunSound(s, steps[..|steps| - 1]);
      StepSound(Run(s, steps[..|steps| - 1]), steps[|steps| - 1]);
    }
  }

  lemma {:induction false} RunMovesOn(s: State, steps: seq<Step>, time: int)
    requires Sound(s) && Calm(steps, time)
    ensures MovesOn(s, Run(s, steps))
    decreases |steps|
  {
    hide Sound, Apply, Waits;
    if steps != [] {
      var n := |steps| - 1;
      assert Calm(steps[..n], time) && steps[n] in steps;
      RunMovesOn(s, steps[..n], time);
      RunSound(s, steps[..n]);
      StepMovesOn(Run(s, steps[..n]), steps[n]);
      hide Weight;
    }
  }

  // While no timer moves, a busy timer thread has moved no oftener than it had
  // moves left.
  lemma {:induction false} TimerRun(s: State, steps: seq<Step>, time: int)
    requires Sound(s) && Calm(steps, time) && TimerBusy(s, time)
    ensures var s' := Run(s, steps);
      Weight(s') < Weight(s) || TimerLeft(s', time) + CountTimer(s, steps) <= TimerLeft(s, time)
    decreases |steps|
  {
    hide Sound, Apply, TimerLeft, TimerMoves;
    if steps != [] {
      var n := |steps| - 1;
      assert Calm(steps[..n], time) && steps[n] in steps;
      TimerRun(s, steps[..n], time);
      RunMovesOn(s, steps[..n], time);
      RunSound(s, steps[..n]);
      var u := Run(s, steps[..n]);
      assert Run(s, steps) == Apply(u, steps[n]);
      hide Run, Weight, Waits;
      StepMovesOn(u, steps[n]);
      if Still(s, u) {
        assert TimerBusy(u, time);
        if TimerMoves(u, steps[n]) { TimerGetsOn(u, steps[n], time); } else { TimerNotSetBack(u, steps[n], time); }
      }
    }
  }

  lemma {:induction false} MainRun(s: State, steps: seq<Step>, time: int)
    requires Sound(s) && Calm(steps, time) && MainBusy(s)
    ensures var s' := Run(s, steps);
      Weight(s') < Weight(s) || MainLeft(s') + CountMain(s, steps) <= MainLeft(s)
    decreases |steps|
  {
    hide Sound, Apply, MainLeft, MainMoves;
    if steps != [] {
      var n := |steps| - 1;
      assert Calm(steps[..n], time) && steps[n] in steps;
      MainRun(s, steps[..n], time);
      RunMovesOn(s, steps[..n], time);
      RunSound(s, steps[..n]);
      var u := Run(s, steps[..n]);
      assert Run(s, steps) == Apply(u, steps[n]);
      hide Run, Weight, Waits;
      StepMovesOn(u, steps[n]);
      if Still(s, u) {
        assert MainBusy(u);
        if MainMoves(u, steps[n]) { MainGetsOn(u, steps[n]); } else { MainNotSetBack(u, steps[n]); }
      }
    }
  }

  // In a round the timer thread moves 9 times or more and the main thread 7 times
  // or more, in any order, with anything but new timers in between.
  predicate IsRound(s: State, steps: seq<Step>, time: int) {
    Calm(steps, time) && CountTimer(s, steps) >= 9 && CountMain(s, steps) >= 7
  }

  // There is one from every state.
  lemma {:induction false} RoundExists(s: State, time: int) returns (steps: seq<Step>)
    ensures IsRound(s, steps, time)
  {
    steps := Moves(s, time, 9);
  }

  lemma {:induction false} Moves(s: State, time: int, n: nat) returns (steps: seq<Step>)
    ensures Calm(steps, time) && CountTimer(s, steps) >= n && CountMain(s, steps) >= n
  {
    if n == 0 { return []; }
    hide Run, TimerMoves, MainMoves;
    steps := Moves(s, time, n - 1);
    var main, _ := BothCanMove(Run(s, steps), time);
    OneStepMore(s, steps, main);
    steps := steps + [main];
    var _, timer := BothCanMove(Run(s, steps), time);
    OneStepMore(s, steps, timer);
    steps := steps + [timer];
  }

  lemma {:induction false} OneStepMore(s: State, steps: seq<Step>, step: Step)
    ensures CountTimer(s, steps + [step]) == CountTimer(s, steps) + One(TimerMoves(Run(s, steps), step))
    ensures CountMain(s, steps + [step]) == CountMain(s, steps) + One(MainMoves(Run(s, steps), step))
  {
    assert (steps + [step])[..|steps|] == steps;
  }

  ghost predicate AllFreed(s: State, submitted: seq<Item>, time: int) {
    forall x <- submitted :: x.expire <= time ==> x in s.freed
  }

  // Someone is busy while a due timer is not freed.
  lemma {:induction false} SomeoneIsBusy(s: State, x: Item, time: int)
    requires Inv(s) && x in s.submitted && x.expire <= time && x !in s.freed
    ensures TimerBusy(s, time) || MainBusy(s)
  {
    InOnePlace(s, x);
    hide Sound, Conserved, OnTime;
    assert Num(s.freed, x) == 0;
    assert Num(Waits(s.cmds), x) > 0 ==> Waits(s.cmds) != [];
    assert Num(Waits(s.dels), x) > 0 ==> Waits(s.dels) != [];
    assert s.heap[x] > 0 ==> x in s.heap;
  }

  lemma {:induction false} RoundGetsOn(s: State, steps: seq<Step>, time: int)
    requires Inv(s) && IsRound(s, steps, time) && !AllFreed(s, s.submitted, time)
    ensures Weight(Run(s, steps)) < Weight(s)
  {
    hide Sound, Conserved, OnTime, Run, Weight, TimerLeft, MainLeft, TimerBusy, MainBusy, Calm;
    var x :| x in s.submitted && x.expire <= time && x !in s.freed;
    SomeoneIsBusy(s, x, time);
    if TimerBusy(s, time) { TimerRun(s, steps, time); } else { MainRun(s, steps, time); }
  }

  function RunAll(s: State, rounds: seq<seq<Step>>): State
    decreases |rounds|
  {
    if rounds == [] then s else RunAll(Run(s, rounds[0]), rounds[1..])
  }

  predicate AllRounds(s: State, rounds: seq<seq<Step>>, time: int)
    decreases |rounds|
  {
    rounds == [] || (IsRound(s, rounds[0], time) && AllRounds(Run(s, rounds[0]), rounds[1..], time))
  }

  lemma {:induction false} RunKeepsInv(s: State, steps: seq<Step>)
    requires Inv(s)
    ensures Inv(Run(s, steps))
    decreases |steps|
  {
    hide Inv, Apply;
    if steps != [] {
      RunKeepsInv(s, steps[..|steps| - 1]);
      StepKeeps(Run(s, steps[..|steps| - 1]), steps[|steps| - 1]);
    }
  }

  // After as many rounds as the timers have moves left, every timer that was due
  // is freed.
  lemma {:induction false} RoundsFree(s: State, rounds: seq<seq<Step>>, time: int)
    requires Inv(s) && AllRounds(s, rounds, time) && (|rounds| >= Weight(s) || AllFreed(s, s.submitted, time))
    ensures AllFreed(RunAll(s, rounds), s.submitted, time)
    decreases |rounds|
  {
    hide Inv, Weight, Run, IsRound;
    if rounds == [] {
      if !AllFreed(s, s.submitted, time) { NothingLeft(s, time); }
    } else {
      var s' := Run(s, rounds[0]);
      RoundKeeps(s, rounds[0], time);
      if !AllFreed(s, s.submitted, time) { RoundGetsOn(s, rounds[0], time); }
      RoundsFree(s', rounds[1..], time);
    }
  }

  lemma {:induction false} RoundKeeps(s: State, steps: seq<Step>, time: int)
    requires Inv(s) && IsRound(s, steps, time)
    ensures Inv(Run(s, steps)) && Run(s, steps).submitted == s.submitted
    ensures AllFreed(s, s.submitted, time) ==> AllFreed(Run(s, steps), s.submitted, time)
  {
    RunKeepsInv(s, steps);
    RunMovesOn(s, steps, time);
    hide Sound, Run, Conserved, OnTime;
    assert forall x <- s.freed :: x in Run(s, steps).freed;
  }

  lemma {:induction false} NothingLeft(s: State, time: int)
    requires Inv(s) && Weight(s) == 0
    ensures AllFreed(s, s.submitted, time)
  {
    hide Sound, Conserved, OnTime;
    forall x | x in s.submitted && x.expire <= time ensures x in s.freed {
      if x !in s.freed { SomeoneIsBusy(s, x, time); }
    }
  }

  // Each timer that is not freed has at most 6 moves left.
  lemma {:induction false} SixEach(s: State)
    requires Inv(s)
    ensures Weight(s) <= 6 * (|s.submitted| - |s.freed|)
  {
    hide Sound, OnTime, Waits;
    var hands := (if s.main.Submitting? || s.main.Deleting? then multiset{s.main.item} else multiset{})
               + (if s.timer.Handing? then multiset{s.timer.item} else multiset{});
    var all := multiset(Waits(s.cmds)) + s.heap + multiset(Waits(s.dels)) + multiset(s.freed) + hands;
    forall x ensures all[x] == multiset(s.submitted)[x] {
      assert Places(s, x) == Num(s.submitted, x);
    }
    assert all == multiset(s.submitted);
    assert |all| == |s.submitted|;
  }

  // After any commands and any interleaving of the two threads: once 6 rounds for
  // each timer that is not freed have passed, every timer that was due before
  // them is freed.
  lemma {:induction false} DueTimersAreFreed(ttl: bool, tables: map<int, T.Table>, slots: seq<Slot<Item>>,
                                             before: seq<Step>, rounds: seq<seq<Step>>, time: int)
    requires |slots| == SIZE
    requires var s := Run(Start(ttl, tables, slots), before);
      AllRounds(s, rounds, time) && |rounds| >= 6 * (|s.submitted| - |s.freed|)
    ensures var s := Run(Start(ttl, tables, slots), before);
      forall x <- s.submitted :: x.expire <= time ==> x in RunAll(s, rounds).freed
  {
    hide Inv, Run, Start, AllRounds, RunAll;
    Reachable(ttl, tables, slots, before);
    var s := Run(Start(ttl, tables, slots), before);
    SixEach(s);
    RoundsFree(s, rounds, time);
  }
}
