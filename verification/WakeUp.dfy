/** The sleep handshake between the main loop, the tick interrupt and the UART completion
    interrupts, as a state machine whose steps may interleave in every way the hardware allows. */
module WakeUp {
  datatype Event = Sent | Received | CtsPulse

  /** Bookkeeping of one event: the completion flag the interrupt sets and the poll handler
      clears; blocks started, completions raised, completions covered by a clear, handler calls,
      and how many completions had been raised at the latest call. */
  datatype Line = Line(flag: bool, started: nat, raised: nat, seen: nat, delivered: nat, answered: nat)

  /** Where the main context stands in an iteration. */
  datatype Pc =
    | Test(e: Event)     // about to test a completion flag
    | Clear(e: Event)    // found it set, about to clear it
    | Call(e: Event)     // cleared it, about to call the handler
    | Return(e: Event)   // inside the handler
    | Timers             // about to read the clock and process timers
    | TimersDone
    | Decide             // interrupts off, about to test the trigger
    | Reset              // interrupts off, about to clear the trigger
    | Asleep

  /** An interrupt routine that has set its flag and has yet to set the trigger. */
  datatype Isr = Tick | Uart(e: Event)

  datatype State = State(
    sent: Line, received: Line, ctsPulse: Line,
    ticks: nat, captured: nat,
    trigger: bool, pc: Pc, isrs: seq<Isr>)
  {
    function Of(e: Event): Line {
      match e
      case Sent => sent
      case Received => received
      case CtsPulse => ctsPulse
    }

    function With(e: Event, l: Line): (s: State)
      ensures s.Of(e) == l && forall o :: o != e ==> s.Of(o) == Of(o)
      ensures s.trigger == trigger && s.pc == pc && s.isrs == isrs && s.ticks == ticks && s.captured == captured
    {
      match e
      case Sent => this.(sent := l)
      case Received => this.(received := l)
      case CtsPulse => this.(ctsPulse := l)
    }

    /** A completion whose handler call has not begun. */
    predicate Undelivered(e: Event) {
      Of(e).flag || pc == Clear(e) || pc == Call(e)
    }
  }

  const IDLE := Line(false, 0, 0, 0, 0, 0)
  const START := State(IDLE, IDLE, IDLE, 0, 0, false, Test(Sent), [])

  function After(e: Event): Pc {
    match e
    case Sent => Test(Received)
    case Received => Test(CtsPulse)
    case CtsPulse => Timers
  }

  /** The next step of the main context, which runs while no interrupt routine does. */
  function Main(s: State): State
    requires s.pc != Asleep
  {
    match s.pc
    case Test(e) => if s.Of(e).flag then s.(pc := Clear(e)) else s.(pc := After(e))
    case Clear(e) => s.With(e, s.Of(e).(flag := false, seen := s.Of(e).raised)).(pc := Call(e))
    case Call(e) =>
      s.With(e, s.Of(e).(delivered := s.Of(e).delivered + 1, answered := s.Of(e).raised)).(pc := Return(e))
    case Return(e) => s.(pc := After(e))
    case Timers => s.(captured := s.ticks, pc := TimersDone)
    case TimersDone => s.(pc := Decide)
    case Decide => if s.trigger then s.(pc := Reset) else s.(pc := Asleep)
    case Reset => s.(trigger := false, pc := Test(Sent))
  }

  /** Handlers and timers start a block, one at a time in each direction: the last one started
      has been reported. */
  predicate CanStart(s: State, e: Event) {
    && (s.pc.Return? || s.pc == TimersDone)
    && e != CtsPulse && s.Of(e).started == s.Of(e).delivered
  }

  function StartBlock(s: State, e: Event): State {
    s.With(e, s.Of(e).(started := s.Of(e).started + 1))
  }

  /** The hardware interrupts: never with interrupts off, and only for a block under way. */
  predicate CanRaise(s: State, i: Isr) {
    && s.pc != Decide && s.pc != Reset
    && (i.Uart? && i.e != CtsPulse ==> s.Of(i.e).raised < s.Of(i.e).started)
  }

  /** First half of an interrupt routine: count the tick, or set the completion flag.  A
      sleeping main context wakes up and starts the next iteration when the routine is over. */
  function Enter(s: State, i: Isr): State {
    var counted := match i
      case Tick => s.(ticks := s.ticks + 1)
      case Uart(e) => s.With(e, s.Of(e).(flag := true, raised := s.Of(e).raised + 1));
    counted.(isrs := s.isrs + [i], pc := if s.pc == Asleep then Test(Sent) else s.pc)
  }

  /** Second half: set the trigger and return. */
  function Leave(s: State): State
    requires s.isrs != []
  {
    s.(trigger := true, isrs := s.isrs[..|s.isrs| - 1])
  }

  datatype Step = MainStep | Start(e: Event) | Interrupt(i: Isr) | InterruptReturn

  predicate Enabled(s: State, t: Step) {
    match t
    case MainStep => s.isrs == [] && s.pc != Asleep
    case Start(e) => s.isrs == [] && CanStart(s, e)
    case Interrupt(i) => CanRaise(s, i)
    case InterruptReturn => s.isrs != []
  }

  function Next(s: State, t: Step): State
    requires Enabled(s, t)
  {
    match t
    case MainStep => Main(s)
    case Start(e) => StartBlock(s, e)
    case Interrupt(i) => Enter(s, i)
    case InterruptReturn => Leave(s)
  }

  /** Place of a step in the iteration. */
  function Position(pc: Pc): (n: nat)
    ensures n <= 16
  {
    match pc
    case Test(e) => Slot(e)
    case Clear(e) => Slot(e) + 1
    case Call(e) => Slot(e) + 2
    case Return(e) => Slot(e) + 3
    case Timers => 12
    case TimersDone => 13
    case Decide => 14
    case Reset => 15
    case Asleep => 16
  }

  function Slot(e: Event): nat {
    match e case Sent => 0 case Received => 4 case CtsPulse => 8
  }

  /** A flag that is set will be seen: it is tested later in this iteration, or the trigger is
      set or about to be, so that there will be another iteration. */
  predicate Covered(s: State, e: Event) {
    s.Of(e).flag ==> s.trigger || s.isrs != [] || Position(s.pc) <= Slot(e) + 1
  }

  /** Flags and counters agree: a flag is set exactly if a completion is not covered by a clear,
      and every clear is followed by one call of the handler. */
  predicate Counted(s: State, e: Event) {
    var l, calling := s.Of(e), if s.pc == Call(e) then 1 else 0;
    && l.seen <= l.raised
    && l.flag == (l.seen < l.raised)
    && (s.pc == Clear(e) ==> l.flag)
    && l.delivered + calling <= l.seen
    && l.answered <= l.raised && (calling == 0 ==> l.seen <= l.answered)
    && (e != CtsPulse ==>
      && l.delivered <= l.raised <= l.started <= l.delivered + 1
      && l.delivered + calling == l.seen)
  }

  predicate Inv(s: State) {
    && (forall e: Event :: Covered(s, e))
    && (forall e: Event :: Counted(s, e))
    && s.captured <= s.ticks
    && (s.captured < s.ticks ==> s.trigger || s.isrs != [] || Position(s.pc) <= 12)
    && (s.pc == Decide || s.pc == Reset ==> s.isrs == [])
    && (s.pc == Reset ==> s.trigger)
    && (s.pc == Asleep ==> s.isrs == [] && !s.trigger)
  }

  lemma MainCounts(s: State, e: Event)
    requires Enabled(s, MainStep) && Counted(s, e)
    ensures Counted(Main(s), e)
  {
  }

  lemma MainCovers(s: State, e: Event)
    requires Enabled(s, MainStep) && Covered(s, e)
    ensures Covered(Main(s), e)
  {
    hide Counted;
  }

  lemma MainKeeps(s: State)
    requires Inv(s) && Enabled(s, MainStep)
    ensures Inv(Main(s))
  {
    hide Counted, Covered;
    forall e: Event
      ensures Covered(Main(s), e) && Counted(Main(s), e)
    {
      MainCounts(s, e);
      MainCovers(s, e);
    }
  }

  lemma StartKeeps(s: State, e: Event)
    requires Inv(s) && Enabled(s, Start(e))
    ensures Inv(StartBlock(s, e))
  {
    forall o: Event
      ensures Covered(StartBlock(s, e), o) && Counted(StartBlock(s, e), o)
    {
      assert Covered(s, o) && Counted(s, o);
    }
  }

  lemma EnterKeeps(s: State, i: Isr)
    requires Inv(s) && Enabled(s, Interrupt(i))
    ensures Inv(Enter(s, i))
  {
    forall e: Event
      ensures Covered(Enter(s, i), e) && Counted(Enter(s, i), e)
    {
      assert Covered(s, e) && Counted(s, e);
    }
  }

  /** Every step keeps the invariant. */
  lemma StepKeeps(s: State, t: Step)
    requires Inv(s) && Enabled(s, t)
    ensures Inv(Next(s, t))
  {
    match t
    case MainStep => MainKeeps(s);
    case Start(e) => StartKeeps(s, e);
    case Interrupt(i) => EnterKeeps(s, i);
    case InterruptReturn =>
      forall e: Event
        ensures Covered(Leave(s), e) && Counted(Leave(s), e)
      {
        assert Covered(s, e) && Counted(s, e);
      }
  }

  /** Any interleaving: the state after a sequence of steps, each of which must be enabled. */
  predicate Possible(s: State, steps: seq<Step>)
    decreases |steps|
  {
    steps == [] || (Enabled(s, steps[0]) && Possible(Next(s, steps[0]), steps[1..]))
  }

  function Run(s: State, steps: seq<Step>): State
    requires Possible(s, steps)
    decreases |steps|
  {
    if steps == [] then s else Run(Next(s, steps[0]), steps[1..])
  }

  lemma {:induction false} RunKeeps(s: State, steps: seq<Step>)
    requires Inv(s) && Possible(s, steps)
    ensures Inv(Run(s, steps))
    decreases |steps|
  {
    hide Inv;
    if steps != [] {
      StepKeeps(s, steps[0]);
      RunKeeps(Next(s, steps[0]), steps[1..]);
    }
  }

  /** No lost wake-up: after any interleaving, the loop sleeps only if every completion and
      every CTS pulse has been handed over, every block completed has been reported exactly
      once, the latest handler call came after the latest completion, and the timers were
      processed at the current tick. */
  lemma NoLostWakeUp(steps: seq<Step>, e: Event)
    requires Possible(START, steps)
    ensures var s := Run(START, steps); var l := s.Of(e);
      && l.delivered <= l.raised
      && (e != CtsPulse ==> l.raised == l.delivered + (if s.Undelivered(e) then 1 else 0))
      && (s.pc == Asleep ==> !s.Undelivered(e) && l.answered == l.raised && s.captured == s.ticks)
  {
    hide Possible, Inv;
    StartHolds();
    RunKeeps(START, steps);
    AsleepMeansDelivered(Run(START, steps), e);
  }

  lemma StartHolds()
    ensures Inv(START)
  {
  }

  lemma AsleepMeansDelivered(s: State, e: Event)
    requires Inv(s)
    ensures s.Of(e).delivered <= s.Of(e).raised
    ensures e != CtsPulse ==> s.Of(e).raised == s.Of(e).delivered + (if s.Undelivered(e) then 1 else 0)
    ensures s.pc == Asleep ==> !s.Undelivered(e) && s.Of(e).answered == s.Of(e).raised && s.captured == s.ticks
  {
    assert Covered(s, e) && Counted(s, e);
  }

  /** Main steps that remain at most until the handler of a pending event is called. */
  function Remaining(s: State, e: Event): (n: nat)
    ensures n <= 32
  {
    if Position(s.pc) <= Slot(e) + 2 then Slot(e) + 3 - Position(s.pc)
    else 16 - Position(s.pc) + Slot(e) + 3
  }

  lemma InvAt(s: State, e: Event)
    requires Inv(s)
    ensures Covered(s, e) && Counted(s, e)
  {
  }

  /** A step of the main context brings the handler call nearer, or makes it. */
  lemma MainProgress(s: State, e: Event)
    requires Covered(s, e) && Enabled(s, MainStep) && s.Undelivered(e)
    ensures var n := Main(s);
      || n.Of(e).delivered > s.Of(e).delivered
      || (n.Of(e).delivered == s.Of(e).delivered && n.Undelivered(e) && Remaining(n, e) < Remaining(s, e))
  {
  }

  /** Steps of interrupts and handlers never put it off. */
  lemma OtherProgress(s: State, t: Step, e: Event)
    requires t != MainStep && Enabled(s, t) && s.Undelivered(e)
    ensures var n := Next(s, t);
      n.Of(e).delivered == s.Of(e).delivered && n.Undelivered(e) && Remaining(n, e) <= Remaining(s, e)
  {
  }

  function MainSteps(steps: seq<Step>): nat {
    if steps == [] then 0 else (if steps[0] == MainStep then 1 else 0) + MainSteps(steps[1..])
  }

  lemma {:induction false} DeliveredGrows(s: State, steps: seq<Step>, e: Event)
    requires Possible(s, steps)
    ensures Run(s, steps).Of(e).delivered >= s.Of(e).delivered
    decreases |steps|
  {
    if steps != [] {
      DeliveredGrows(Next(s, steps[0]), steps[1..], e);
    }
  }

  lemma {:induction false} DeliveredWithinRemaining(s: State, steps: seq<Step>, e: Event)
    requires Inv(s) && Possible(s, steps) && s.Undelivered(e)
    requires MainSteps(steps) >= Remaining(s, e)
    ensures Run(s, steps).Of(e).delivered > s.Of(e).delivered
    decreases |steps|
  {
    hide Inv;
    if steps != [] {
      InvAt(s, e);
      var n := Next(s, steps[0]);
      StepKeeps(s, steps[0]);
      if steps[0] == MainStep { MainProgress(s, e); } else { OtherProgress(s, steps[0], e); }
      if n.Of(e).delivered > s.Of(e).delivered {
        DeliveredGrows(n, steps[1..], e);
      } else {
        DeliveredWithinRemaining(n, steps[1..], e);
      }
    }
  }

  /** Delivery is bounded: whenever an event is pending, its handler is called within 32 steps of
      the main context, whatever interrupts come in between. */
  lemma DeliveredSoon(before: seq<Step>, after: seq<Step>, e: Event)
    requires Possible(START, before) && Possible(Run(START, before), after)
    requires Run(START, before).Undelivered(e) && MainSteps(after) >= 32
    ensures Run(Run(START, before), after).Of(e).delivered > Run(START, before).Of(e).delivered
  {
    hide Inv, Remaining;
    StartHolds();
    RunKeeps(START, before);
    DeliveredWithinRemaining(Run(START, before), after, e);
  }

  /** The counters mean what they say: ticks, blocks started and completions of the run so far. */
  lemma {:induction false} Counters(s: State, steps: seq<Step>, e: Event)
    requires Possible(s, steps)
    ensures Run(s, steps).ticks == s.ticks + multiset(steps)[Interrupt(Tick)]
    ensures Run(s, steps).Of(e).started == s.Of(e).started + multiset(steps)[Start(e)]
    ensures Run(s, steps).Of(e).raised == s.Of(e).raised + multiset(steps)[Interrupt(Uart(e))]
    decreases |steps|
  {
    hide Enabled, Next;
    if steps != [] {
      CounterStep(s, steps[0], e);
      Counters(Next(s, steps[0]), steps[1..], e);
      CountFirst(steps, Interrupt(Tick));
      CountFirst(steps, Start(e));
      CountFirst(steps, Interrupt(Uart(e)));
    }
  }

  lemma CounterStep(s: State, t: Step, e: Event)
    requires Enabled(s, t)
    ensures Next(s, t).ticks == s.ticks + if t == Interrupt(Tick) then 1 else 0
    ensures Next(s, t).Of(e).started == s.Of(e).started + if t == Start(e) then 1 else 0
    ensures Next(s, t).Of(e).raised == s.Of(e).raised + if t == Interrupt(Uart(e)) then 1 else 0
  {
  }

  lemma CountFirst(steps: seq<Step>, t: Step)
    requires steps != []
    ensures multiset(steps)[t] == (if steps[0] == t then 1 else 0) + multiset(steps[1..])[t]
  {
    assert steps == [steps[0]] + steps[1..];
  }

  // ----- falling asleep

  /** Steps from a place in the iteration to the test of the trigger, with no flag set. */
  function UntilDecide(pc: Pc): nat {
    match pc
    case Test(e) => 1 + UntilTimers(e)
    case Clear(e) => UntilTimers(e)
    case Call(e) => 2 + UntilTimers(e)
    case Return(e) => 1 + UntilTimers(e)
    case Timers => 2
    case TimersDone => 1
    case _ => 0
  }

  /** Steps behind the handling of an event to the test of the trigger, with no flag set. */
  function UntilTimers(e: Event): nat {
    match e case Sent => 4 case Received => 3 case CtsPulse => 2
  }

  function Flags(s: State): nat {
    (if s.sent.flag then 1 else 0) + (if s.received.flag then 1 else 0) + (if s.ctsPulse.flag then 1 else 0)
  }

  /** Steps of the main context to sleep when no interrupt comes: a flag costs three, the trigger
      one more iteration. */
  function ToSleep(s: State): (n: nat)
    ensures n <= 23
  {
    3 * Flags(s) + match s.pc
      case Asleep => 0
      case Reset => 7
      case _ => UntilDecide(s.pc) + (if s.trigger then 8 else 1)
  }

  /** Nothing is pending exactly if the loop sleeps, or no step is left until it does. */
  lemma SleepReached(s: State)
    requires Inv(s) && s.isrs == []
    ensures ToSleep(s) == 0 <==> s.pc == Asleep
  {
    FlagsCovered(s);
  }

  lemma FlagsCovered(s: State)
    requires Inv(s)
    ensures Covered(s, Sent) && Covered(s, Received) && Covered(s, CtsPulse)
    ensures Counted(s, Sent) && Counted(s, Received) && Counted(s, CtsPulse)
  {
    InvAt(s, Sent);
    InvAt(s, Received);
    InvAt(s, CtsPulse);
  }

  /** A step of the main context is one step less to sleep. */
  lemma StepNearer(s: State)
    requires Inv(s) && Enabled(s, MainStep)
    ensures Main(s).isrs == [] && ToSleep(Main(s)) == ToSleep(s) - 1
  {
    hide Inv, ToSleep, Covered, Counted;
    match s.pc
    case Test(e) => TestNearer(s, e);
    case Clear(e) =>
      InvAt(s, e);
      ClearNearer(s, e);
    case _ =>
      if s.pc == Reset { ResetTriggered(s); }
      OtherNearer(s);
  }

  lemma OtherNearer(s: State)
    requires s.pc != Asleep && !s.pc.Test? && !s.pc.Clear? && (s.pc == Reset ==> s.trigger)
    ensures ToSleep(Main(s)) == ToSleep(s) - 1
  {
  }

  lemma TestNearer(s: State, e: Event)
    requires s.pc == Test(e)
    ensures ToSleep(Main(s)) == ToSleep(s) - 1
  {
  }

  lemma ClearNearer(s: State, e: Event)
    requires s.pc == Clear(e) && Counted(s, e)
    ensures ToSleep(Main(s)) == ToSleep(s) - 1
  {
  }

  lemma ResetTriggered(s: State)
    requires s.pc == Reset && Inv(s)
    ensures s.trigger
  {
  }

  function Undisturbed(n: nat): seq<Step> {
    if n == 0 then [] else [MainStep] + Undisturbed(n - 1)
  }

  lemma {:induction false} SleepsIn(s: State)
    requires Inv(s) && s.isrs == []
    ensures Possible(s, Undisturbed(ToSleep(s))) && Run(s, Undisturbed(ToSleep(s))).pc == Asleep
    decreases ToSleep(s)
  {
    hide Inv, ToSleep;
    SleepReached(s);
    if s.pc != Asleep {
      StepNearer(s);
      MainKeeps(s);
      SleepsIn(Main(s));
      var rest := Undisturbed(ToSleep(s) - 1);
      assert Undisturbed(ToSleep(s)) == [MainStep] + rest && ([MainStep] + rest)[1..] == rest;
    }
  }

  /** From every reachable state in which no interrupt routine is running, the loop falls asleep if
      no interrupt comes, after at most 23 of its steps: three per flag that is set, at most six to
      the end of the iteration, and eight more if the trigger is set. */
  lemma SleepsSoon(before: seq<Step>)
    requires Possible(START, before) && Run(START, before).isrs == []
    ensures var s := Run(START, before);
            exists n: nat :: n <= 23 && Possible(s, Undisturbed(n)) && Run(s, Undisturbed(n)).pc == Asleep
  {
    hide Inv, ToSleep, Possible, Run;
    StartHolds();
    RunKeeps(START, before);
    SleepsIn(Run(START, before));
  }

  /** Without interrupts the loop sleeps after six steps. */
  lemma FirstSleep()
    ensures Possible(START, Undisturbed(6)) && Run(START, Undisturbed(6)).pc == Asleep
  {
    hide Inv, Possible, Run, Undisturbed;
    StartHolds();
    SleepsIn(START);
  }

  lemma {:induction false} RunMore(s: State, steps: seq<Step>, t: Step)
    requires Possible(s, steps) && Enabled(Run(s, steps), t)
    ensures Possible(s, steps + [t]) && Run(s, steps + [t]) == Next(Run(s, steps), t)
    decreases |steps|
  {
    if steps == [] {
      assert [] + [t] == [t] && [t][1..] == [];
    } else {
      assert (steps + [t])[1..] == steps[1..] + [t];
      RunMore(Next(s, steps[0]), steps[1..], t);
    }
  }

  lemma {:induction false} RunAll(s: State, before: seq<Step>, after: seq<Step>)
    requires Possible(s, before) && Possible(Run(s, before), after)
    ensures Possible(s, before + after) && Run(s, before + after) == Run(Run(s, before), after)
    decreases |after|
  {
    if after == [] {
      assert before + [] == before;
    } else {
      var more := before + [after[0]];
      RunMore(s, before, after[0]);
      RunAll(s, more, after[1..]);
      assert before + after == more + after[1..];
    }
  }

  /** A block started by a timer, sent while the loop sleeps, and reported: there is such a run. */
  lemma WokenExample() returns (asleep: seq<Step>, woken: seq<Step>)
    ensures Possible(START, asleep) && Run(START, asleep).pc == Asleep && Run(START, asleep).sent.started == 1
    ensures Possible(Run(START, asleep), woken) && woken != [] && woken[0] == Interrupt(Uart(Sent))
    ensures Run(Run(START, asleep), woken).sent.delivered == 1
  {
    hide Possible, Run;
    asleep := SleepWithBlock();
    woken := [];
    var sleeping := START.(pc := Asleep, sent := IDLE.(started := 1));
    var s := sleeping;
    NoSteps(sleeping);
    woken, s := Continue(sleeping, woken, Interrupt(Uart(Sent)));
    assert s.pc == Test(Sent) && s.sent.flag && s.isrs == [Uart(Sent)];
    woken, s := Continue(sleeping, woken, InterruptReturn);
    assert s.pc == Test(Sent) && s.sent.flag && s.isrs == [] && s.sent.delivered == 0;
    woken, s := Continue(sleeping, woken, MainStep);
    assert s.pc == Clear(Sent) && s.isrs == [] && s.sent.delivered == 0;
    woken, s := Continue(sleeping, woken, MainStep);
    assert s.pc == Call(Sent) && s.isrs == [] && s.sent.delivered == 0;
    woken, s := Continue(sleeping, woken, MainStep);
  }

  lemma SleepWithBlock() returns (asleep: seq<Step>)
    ensures Possible(START, asleep) && Run(START, asleep) == START.(pc := Asleep, sent := IDLE.(started := 1))
  {
    hide Possible, Run;
    asleep := [];
    var s := START;
    NoSteps(START);
    asleep, s := Continue(START, asleep, MainStep);
    assert s == START.(pc := Test(Received));
    asleep, s := Continue(START, asleep, MainStep);
    assert s == START.(pc := Test(CtsPulse));
    asleep, s := Continue(START, asleep, MainStep);
    assert s == START.(pc := Timers);
    asleep, s := Continue(START, asleep, MainStep);
    assert s == START.(pc := TimersDone);
    asleep, s := Continue(START, asleep, Start(Sent));
    assert s == START.(pc := TimersDone, sent := IDLE.(started := 1));
    asleep, s := Continue(START, asleep, MainStep);
    asleep, s := Continue(START, asleep, MainStep);
  }

  lemma NoSteps(s: State)
    ensures Possible(s, []) && Run(s, []) == s
  {
  }

  lemma Continue(from: State, steps: seq<Step>, t: Step) returns (more: seq<Step>, s: State)
    requires Possible(from, steps) && Enabled(Run(from, steps), t)
    ensures more == steps + [t] && Possible(from, more)
    ensures s == Run(from, more) == Next(Run(from, steps), t)
  {
    RunMore(from, steps, t);
    more, s := steps + [t], Next(Run(from, steps), t);
  }
}
