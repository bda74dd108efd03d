/** The timer list of the embedded run loop and the pass that runs due timers, with handlers
    that may re-arm and remove timers while time goes on. */
module RunLoop {
  import opened Words
  import opened Arith
  import opened Timers

  /** Time base: ticks of a period in milliseconds, or a millisecond counter. */
  datatype Mode = Tick(period: nat) | TimeMs

  class TimerSource {
    var timeout: u32
    var deadline: int
    var setAt: nat
    var ms: nat

    constructor ()
    {
      timeout, deadline, setAt, ms := 0, 0, 0, 0;
    }
  }

  /** One execution of a timer: its deadline, when and with what delay it was armed, and the
      clock when it ran. */
  datatype Run = Run(timer: TimerSource, deadline: int, setAt: nat, ms: nat, at: nat)

  ghost predicate Distinct(ts: seq<TimerSource>) {
    forall i, j :: 0 <= i < j < |ts| ==> ts[i] != ts[j]
  }

  ghost predicate Sorted(ts: seq<TimerSource>)
    reads ts
  {
    forall i, j :: 0 <= i <= j < |ts| ==> ts[i].deadline <= ts[j].deadline
  }

  lemma InsertKeepsDistinct(ts: seq<TimerSource>, i: nat, t: TimerSource)
    requires i <= |ts| && Distinct(ts) && t !in ts
    ensures Distinct(ts[..i] + [t] + ts[i..])
  {
  }

  lemma InsertKeepsSorted(ts: seq<TimerSource>, i: nat, t: TimerSource)
    requires i <= |ts| && Sorted(ts)
    requires forall j :: 0 <= j < i ==> ts[j].deadline <= t.deadline
    requires forall j :: i <= j < |ts| ==> t.deadline <= ts[j].deadline
    ensures Sorted(ts[..i] + [t] + ts[i..])
  {
  }

  lemma RemovalKeeps(ts: seq<TimerSource>, i: nat)
    requires i < |ts| && Distinct(ts) && Sorted(ts)
    ensures Distinct(ts[..i] + ts[i + 1..]) && Sorted(ts[..i] + ts[i + 1..])
    ensures ts[i] !in ts[..i] + ts[i + 1..]
    ensures forall t <- ts[..i] + ts[i + 1..] :: t in ts
  {
    var rest := ts[..i] + ts[i + 1..];
    assert forall j :: 0 <= j < |rest| ==> rest[j] == if j < i then ts[j] else ts[j + 1];
  }

  class Loop {
    const mode: Mode
    var now: u32
    var clock: nat
    var timers: seq<TimerSource>

    // what happened: executions, removals through the interface, and deadlines added
    var ran: seq<Run>
    var removed: seq<TimerSource>
    var entered: seq<int>

    constructor (mode: Mode)
      requires mode.Tick? ==> mode.period > 0
      ensures Valid() && timers == [] && ran == [] && removed == [] && entered == []
      ensures clock == 0 && this.mode == mode
    {
      this.mode := mode;
      now, clock, timers, ran, removed, entered := 0, 0, [], [], [], [];
    }

    /** Armed, with a deadline less than half the range away: what the list may hold. */
    predicate Listed(t: TimerSource)
      reads this`clock, t
    {
      && (mode.Tick? ==> mode.period > 0)
      && t.timeout == t.deadline % WRAP && InWindow(t.deadline, clock)
      && t.deadline == t.setAt + Delay(t.ms)
    }

    /** No timer twice, every deadline within half the range, and sorted by true deadline. */
    ghost predicate Valid()
      reads this`now, this`clock, this`timers, timers
    {
      && (mode.Tick? ==> mode.period > 0)
      && now == clock % WRAP
      && Distinct(timers)
      && (forall i :: 0 <= i < |timers| ==> Listed(timers[i]))
      && Sorted(timers)
    }

    /** Counter increments between arming and the deadline. */
    function Delay(ms: nat): (d: nat)
      requires mode.Tick? ==> mode.period > 0
      ensures d >= 1
      ensures mode.Tick? ==> d >= 2 && d >= 1 + ms / mode.period
      ensures mode.TimeMs? ==> d == ms + 1
    {
      match mode
      case Tick(period) => 1 + (if ms / period == 0 then 1 else ms / period)
      case TimeMs => ms + 1
    }

    /** In ticks: behind the tick already under way, as many whole periods as the delay holds, and at
        least one.  In milliseconds: one more than asked for. */
    lemma DelayIs(ms: nat)
      requires mode.Tick? ==> mode.period > 0
      ensures mode.Tick? && ms < mode.period ==> Delay(ms) == 2
      ensures mode.Tick? && ms >= mode.period ==> mode.period * (Delay(ms) - 1) <= ms < mode.period * Delay(ms)
      ensures mode.TimeMs? ==> Delay(ms) == ms + 1
    {
      if mode.Tick? {
        DivBounds(ms, mode.period);
        DivBelow(ms, mode.period, 1);
        var q := ms / mode.period;
        assert mode.period * q == q * mode.period && mode.period * (q + 1) == (q + 1) * mode.period;
      }
    }

    /** A run of a timer armed with its delay, no more and no less: its deadline lies as many
        periods behind the tick after arming as the delay holds, at least one, and in milliseconds
        one more than asked for. */
    ghost predicate DelayKept(r: Run) {
      && (mode.Tick? ==>
            var ticks := r.deadline - r.setAt - 1;
            && mode.period * ticks <= (if r.ms < mode.period then mode.period else r.ms)
            && 1 <= ticks && r.ms < mode.period * (ticks + 1))
      && (mode.TimeMs? ==> r.deadline == r.setAt + r.ms + 1)
    }

    lemma ArmedKeepsDelay(r: Run, at: int)
      requires Armed(r, at)
      ensures DelayKept(r)
    {
      hide Loop.Delay;
      DelayIs(r.ms);
      if mode.Tick? && r.ms < mode.period { assert mode.period * 1 == mode.period; }
    }

    /** Time goes on.  The loop is assumed not to lag half the counter range behind a deadline. */
    method Advance(k: nat)
      requires Valid() && forall i :: 0 <= i < |timers| ==> InWindow(timers[i].deadline, clock + k)
      modifies this`now, this`clock
      ensures Valid() && clock == old(clock) + k
    {
      DivAdd(clock / WRAP, now + k, WRAP);
      now := (now as int + k) % WRAP;
      clock := clock + k;
    }

    /** Arm a timer that is not in the list. */
    method SetTimer(t: TimerSource, ms: nat)
      requires Valid() && t !in timers && Delay(ms) < HALF
      modifies t
      ensures Valid() && Listed(t)
      ensures t.deadline == clock + Delay(ms) && t.setAt == clock && t.ms == ms
      ensures mode.Tick? && ms < mode.period ==> t.deadline == clock + 2
      ensures mode.Tick? && ms >= mode.period ==>
        mode.period * (t.deadline - clock - 1) <= ms < mode.period * (t.deadline - clock)
      ensures mode.TimeMs? ==> t.deadline == clock + ms + 1
    {
      DelayIs(ms);
      hide Distinct, Sorted, Loop.Listed;
      DivAdd(clock / WRAP, now + Delay(ms), WRAP);
      t.timeout := (now as int + Delay(ms)) % WRAP;
      t.deadline := clock + Delay(ms);
      t.setAt := clock;
      t.ms := ms;
      IsListed(t);
    }

    lemma IsListed(t: TimerSource)
      requires mode.Tick? ==> mode.period > 0
      requires t.timeout == t.deadline % WRAP && InWindow(t.deadline, clock) && t.deadline == t.setAt + Delay(t.ms)
      ensures Listed(t)
    {
    }

    /** Number of listed timers that stay in front of a new deadline. */
    ghost function Rank(deadline: int): (i: nat)
      requires Valid()
      reads this, timers
      ensures i <= |timers|
      ensures forall j :: 0 <= j < i ==> timers[j].deadline <= deadline
      ensures forall j :: i <= j < |timers| ==> deadline < timers[j].deadline
    {
      RankFrom(deadline, 0)
    }

    ghost function RankFrom(deadline: int, k: nat): (i: nat)
      requires Valid() && k <= |timers|
      requires forall j :: 0 <= j < k ==> timers[j].deadline <= deadline
      reads this, timers
      ensures i <= |timers|
      ensures forall j :: 0 <= j < i ==> timers[j].deadline <= deadline
      ensures forall j :: i <= j < |timers| ==> deadline < timers[j].deadline
      decreases |timers| - k
    {
      if k < |timers| && timers[k].deadline <= deadline then RankFrom(deadline, k + 1) else k
    }

    /** Walk the list to the place of a timer, unless the timer itself is met first. */
    method FindPlace(t: TimerSource) returns (i: nat, listed: bool)
      requires Valid() && Listed(t)
      ensures listed <==> t in timers
      ensures !listed ==> i == Rank(t.deadline)
    {
      i, listed := 0, false;
      while i < |timers|
        invariant 0 <= i <= |timers|
        invariant t !in timers[..i]
        invariant forall j :: 0 <= j < i ==> timers[j].deadline <= t.deadline
      {
        if timers[i] == t { return i, true; }
        assert Listed(timers[i]);
        OrdersByDeadline(clock, t.deadline, timers[i].deadline);
        if Before(now, t.timeout, timers[i].timeout) {
          break;
        }
        i := i + 1;
      }
      assert forall j :: i <= j < |timers| ==> t.deadline < timers[j].deadline;
      RankIs(t.deadline, i);
    }

    lemma RankIs(deadline: int, i: nat)
      requires Valid() && i <= |timers|
      requires forall j :: 0 <= j < i ==> timers[j].deadline <= deadline
      requires forall j :: i <= j < |timers| ==> deadline < timers[j].deadline
      ensures i == Rank(deadline)
    {
      var k := Rank(deadline);
      assert k < |timers| ==> deadline < timers[k].deadline;
      assert i < |timers| ==> deadline < timers[i].deadline;
    }

    /** Insert behind all timers with the same or an earlier deadline; a timer that is already
        listed stays where it is. */
    method AddTimer(t: TimerSource)
      requires Valid() && Listed(t)
      modifies this`timers, this`entered
      ensures Valid()
      ensures entered == old(entered) + if t in old(timers) then [] else [t.deadline]
      ensures t in old(timers) ==> timers == old(timers)
      ensures t !in old(timers) ==>
              var i := old(Rank(t.deadline)); timers == old(timers)[..i] + [t] + old(timers)[i..]
    {
      hide Distinct, Sorted, Loop.Listed;
      var i, listed := FindPlace(t);
      if listed { return; }
      InsertKeepsDistinct(timers, i, t);
      InsertKeepsSorted(timers, i, t);
      ghost var before := timers;
      timers := timers[..i] + [t] + timers[i..];
      entered := entered + [t.deadline];
      assert forall j :: 0 <= j < |timers| ==>
        timers[j] == if j < i then before[j] else if j == i then t else before[j - 1];
    }

    method IndexOf(t: TimerSource) returns (i: nat)
      ensures i <= |timers| && t !in timers[..i] && (i < |timers| ==> timers[i] == t)
    {
      i := 0;
      while i < |timers| && timers[i] != t
        invariant 0 <= i <= |timers| && t !in timers[..i]
      {
        i := i + 1;
      }
    }

    /** Remove a timer wherever it is listed. */
    method RemoveTimer(t: TimerSource) returns (found: bool)
      requires Valid()
      modifies this`timers
      ensures Valid() && found == (t in old(timers)) && t !in timers
      ensures !found ==> timers == old(timers)
      ensures found ==> exists i :: 0 <= i < |old(timers)| && old(timers)[i] == t
                                    && timers == old(timers)[..i] + old(timers)[i + 1..]
    {
      hide Distinct, Sorted;
      var i := IndexOf(t);
      found := i < |timers|;
      if found {
        RemovalKeeps(timers, i);
        ghost var before := timers;
        timers := timers[..i] + timers[i + 1..];
        assert forall j :: 0 <= j < |timers| ==> timers[j] in before;
      }
    }

    /** All listed deadlines are within reach of a captured clock value. */
    ghost predicate WithinReach(at: int)
      reads this`timers, timers
    {
      forall i :: 0 <= i < |timers| ==> InWindow(timers[i].deadline, at)
    }

    ghost function Snap(): Snapshot
      reads this`timers, this`removed, timers
    {
      Snapshot(map t | t in timers :: t.deadline, timers, removed)
    }

    /** Add a timer that is not listed. */
    method Enlist(t: TimerSource, ghost at: nat)
      requires Valid() && Listed(t) && t !in timers
      modifies this`timers, this`entered
      ensures Valid() && Kept(old(Snap()), Snap()) && entered == old(entered) + [t.deadline]
      ensures at < t.deadline ==> Respects(old(Snap()), Snap(), at)
      ensures old(WithinReach(at)) && InWindow(t.deadline, at) ==> WithinReach(at)
    {
      hide Distinct, Sorted, Earlier, Respects, Kept;
      ghost var snap, i := Snap(), Rank(t.deadline);
      KeptInsert(snap, t, t.deadline, i);
      if at < t.deadline { RespectsInsert(snap, t, t.deadline, i, at); }
      AddTimer(t);
      InsertMembers(snap.order, i, t);
      SnapInserted(snap, t);
      if old(WithinReach(at)) && InWindow(t.deadline, at) { ReachByMembers(at); }
    }

    lemma ReachByMembers(at: int)
      requires forall u <- timers :: InWindow(u.deadline, at)
      ensures WithinReach(at)
    {
    }

    lemma SnapInserted(snap: Snapshot, t: TimerSource)
      requires forall u :: u in timers <==> u == t || u in snap.order
      requires t !in snap.order && snap.removed == removed
      requires snap.deadlines == map u | u in snap.order :: u.deadline
      ensures Snap() == Snapshot(snap.deadlines[t := t.deadline], timers, removed)
    {
    }

    lemma SnapRemoved(snap: Snapshot, t: TimerSource)
      requires forall u :: u in timers <==> u != t && u in snap.order
      requires snap.deadlines == map u | u in snap.order :: u.deadline
      ensures Snap() == Snapshot(snap.deadlines - {t}, timers, removed)
    {
    }

    method Drop(t: TimerSource, ghost at: nat)
      requires Valid()
      modifies this`timers, this`removed
      ensures Valid() && Respects(old(Snap()), Snap(), at) && (old(WithinReach(at)) ==> WithinReach(at))
    {
      hide Distinct, Sorted, Earlier, Respects, Kept;
      ghost var snap := Snap();
      RespectsSelf(snap, at);
      var found := RemoveTimer(t);
      if found {
        ghost var i :| 0 <= i < |snap.order| && snap.order[i] == t && timers == snap.order[..i] + snap.order[i + 1..];
        RespectsRemove(snap, i, at);
        RemovalMembers(snap.order, i);
        removed := removed + [t];
        SnapRemoved(snap, t);
        if old(WithinReach(at)) { ReachByMembers(at); }
      }
    }

    method Pause(k: nat, ghost at: nat)
      requires Valid() && at <= clock
      requires forall i :: 0 <= i < |timers| ==> InWindow(timers[i].deadline, clock + k)
      modifies this`now, this`clock
      ensures Valid() && at <= clock && Respects(old(Snap()), Snap(), at)
    {
      hide Distinct, Sorted, Earlier;
      Advance(k);
    }

    /** One step of a handler: time goes on, a timer is armed, added or removed.  Which, and with
        what arguments, is arbitrary; what is armed need not be added, nor the other way round. */
    method HandlerStep(pool: seq<TimerSource>, ghost at: nat)
      requires Valid() && at <= clock
      modifies this`now, this`clock, this`timers, this`removed, this`entered, pool
      ensures Valid() && at <= clock && Kept(old(Snap()), Snap()) && old(entered) <= entered
      ensures Prompt(entered, |old(entered)|, at) ==> Respects(old(Snap()), Snap(), at)
      ensures Prompt(entered, |old(entered)|, at) && old(WithinReach(at)) ==> WithinReach(at)
    {
      hide Distinct, Sorted, Respects, Kept, KeepsOrder, Loop.Listed;
      ghost var snap := Snap();
      RespectsSelf(snap, at);
      if * {
        var k: nat := *;
        if forall i :: 0 <= i < |timers| ==> InWindow(timers[i].deadline, clock + k) {
          Pause(k, at);
        }
      } else if pool != [] {
        var k: nat, ms: nat := *, *;
        var t := pool[k % |pool|];
        if * {
          if t !in timers && Delay(ms) < HALF {
            ArmOnly(t, ms, at);
          }
        } else if * {
          if t !in timers && Listed(t) {
            Enlist(t, at);
            assert entered[|entered| - 1] == t.deadline;
          } else if t in timers {
            MemberListed(t);
            AddTimer(t);
          }
        } else {
          Drop(t, at);
        }
      }
    }

    lemma MemberListed(t: TimerSource)
      requires Valid() && t in timers
      ensures Listed(t)
    {
      hide Distinct, Sorted, Loop.Listed;
      var i :| 0 <= i < |timers| && timers[i] == t;
    }

    method ArmOnly(t: TimerSource, ms: nat, ghost at: nat)
      requires Valid() && at <= clock && t !in timers && Delay(ms) < HALF
      modifies t
      ensures Valid() && Respects(old(Snap()), Snap(), at) && (old(WithinReach(at)) ==> WithinReach(at))
    {
      hide Distinct, Sorted, Earlier, Loop.Listed;
      SetTimer(t, ms);
    }

    /** A handler: any number of steps. */
    method Handler(pool: seq<TimerSource>, ghost at: nat)
      requires Valid() && at <= clock
      modifies this`now, this`clock, this`timers, this`removed, this`entered, pool
      ensures Valid() && at <= clock && Kept(old(Snap()), Snap()) && old(entered) <= entered
      ensures Prompt(entered, |old(entered)|, at) ==> Respects(old(Snap()), Snap(), at)
      ensures Prompt(entered, |old(entered)|, at) && old(WithinReach(at)) ==> WithinReach(at)
    {
      hide Distinct, Sorted, Respects, Kept, Prompt, Loop.Valid, Loop.WithinReach;
      var n: nat := *;
      ghost var a, e0, reach := Snap(), |entered|, WithinReach(at);
      RespectsSelf(a, at);
      while n > 0
        invariant Valid() && at <= clock && Kept(a, Snap()) && old(entered) <= entered
        invariant Prompt(entered, e0, at) ==> Respects(a, Snap(), at) && (reach ==> WithinReach(at))
      {
        ghost var b, before := Snap(), entered;
        HandlerStep(pool, at);
        KeptTrans(a, b, Snap());
        PromptParts(before, entered, e0, at);
        if Prompt(entered, e0, at) { RespectsTrans(a, b, Snap(), at); }
        n := n - 1;
      }
    }

    /** Take the first timer off the list and run it. */
    method RunFirst(pool: seq<TimerSource>, ghost at: nat)
      requires Valid() && at <= clock && timers != []
      modifies this, pool
      ensures Valid() && at <= clock && old(entered) <= entered && Kept(WithoutFirst(old(Snap())), Snap())
      ensures Prompt(entered, |old(entered)|, at) ==>
        Respects(WithoutFirst(old(Snap())), Snap(), at) && (old(WithinReach(at)) ==> WithinReach(at))
      ensures var t := old(timers[0]);
              && ran == old(ran) + [Run(t, old(t.deadline), old(t.setAt), old(t.ms), old(clock))]
              && Armed(ran[|ran| - 1], at)
    {
      hide Distinct, Sorted, Earlier, Respects, Kept, Prompt;
      var t := timers[0];
      assert Listed(timers[0]);
      ran := ran + [Run(t, t.deadline, t.setAt, t.ms, clock)];
      RemoveFirst(at);
      Handler(pool, at);
    }

    method RemoveFirst(ghost at: nat)
      requires Valid() && timers != []
      modifies this`timers
      ensures Valid() && (old(WithinReach(at)) ==> WithinReach(at))
      ensures timers == old(timers)[1..] && Snap() == WithoutFirst(old(Snap()))
    {
      hide Sorted, Distinct, Loop.WithinReach, Loop.Listed, InWindow;
      ghost var snap, reach := Snap(), WithinReach(at);
      if reach { MembersInReach(at); }
      var found := RemoveTimer(timers[0]);
      FirstTaken(snap.order, timers);
      SnapRemoved(snap, snap.order[0]);
      if reach { ReachByMembers(at); }
    }

    lemma MembersInReach(at: int)
      requires WithinReach(at)
      ensures forall u <- timers :: InWindow(u.deadline, at)
    {
    }

    /** The pass, with the time captured at its start, for at most the given number of turns.
        Every run is of a timer armed as told whose distance from the captured time is taken for
        due; every timer listed at the start is still listed, has run, or was removed by a
        handler; and the pass is over exactly if the list is empty or its first timer is not taken
        for due.  If handlers add only timers with deadlines after the captured time and less than
        2^31 counts after it, the pass is over after as many turns as timers were listed at most;
        it runs only timers listed and due at the start, each once, on time, in deadline order and
        in list order among equal deadlines; and once it is over nothing is due. */
    method ProcessTimers(pool: seq<TimerSource>, turns: nat) returns (finished: bool)
      requires Valid()
      modifies this, pool
      ensures Valid() && old(clock) <= clock
      ensures old(ran) <= ran && old(removed) <= removed && old(entered) <= entered
      ensures forall r <- ran[|old(ran)|..] :: Armed(r, old(clock)) && TakenForDue(r.deadline, old(clock))
      ensures forall t <- old(timers) ::
        || (t in timers && t.deadline == old(t.deadline))
        || WasRun(t, ran[|old(ran)|..]) || t in removed[|old(removed)|..]
      ensures forall r <- ran[|old(ran)|..] :: DelayKept(r)
      ensures finished <==> timers == [] || !TakenForDue(timers[0].deadline, old(clock))
      ensures |ran| <= |old(ran)| + turns && (!finished ==> |ran| == |old(ran)| + turns)
      ensures Prompt(entered, |old(entered)|, old(clock)) && |old(timers)| <= turns ==> finished
      ensures Prompt(entered, |old(entered)|, old(clock)) ==>
        && InOrder(ran[|old(ran)|..]) && (forall r <- ran[|old(ran)|..] :: OnTime(r, old(clock)))
        && (forall r <- ran[|old(ran)|..] :: r.timer in old(timers) && r.deadline == old(r.timer.deadline))
        && InListOrder(ran[|old(ran)|..], old(timers)) && OncePerTimer(ran[|old(ran)|..])
      ensures Prompt(entered, |old(entered)|, old(clock)) ==>
        forall t <- old(timers) | old(clock) < old(t.deadline) ::
          (t in timers && t.deadline == old(t.deadline)) || t in removed[|old(removed)|..]
      ensures Prompt(entered, |old(entered)|, old(clock)) && finished ==>
        && (forall t <- timers :: old(clock) < t.deadline)
        && (forall t <- old(timers) | old(t.deadline) <= old(clock) ::
              WasRun(t, ran[|old(ran)|..]) || t in removed[|old(removed)|..])
    {
      hide Distinct, Sorted, Accounted, Respects, KeptOrRun, InOrder, InListOrder, OncePerTimer, WasRun, NotDue;
      hide TakenForDue, Loop.OnTime, Loop.Armed, Loop.WithinReach, Prompt, Loop.Listed, InWindow, DueOf, Kept;
      hide Loop.DelayKept;
      var captured := now;
      var at := clock;
      ghost var start, ran0, entered0 := Snap(), |ran|, |entered|;
      AccountedStart(at);
      DueAtMost(at);
      assert ran[ran0..] == [];
      var i := 0;
      finished := TestFirst(captured, at);
      while !finished && i < turns
        invariant Valid() && at <= clock && 0 <= i <= turns && |ran| == ran0 + i
        invariant old(ran) <= ran && old(removed) <= removed && old(entered) <= entered
        invariant forall r <- ran[ran0..] :: Armed(r, at) && TakenForDue(r.deadline, at)
        invariant KeptOrRun(start, Snap(), ran[ran0..])
        invariant finished <==> timers == [] || !TakenForDue(timers[0].deadline, at)
        invariant Prompt(entered, entered0, at) ==> WithinReach(at) && Accounted(start, Snap(), ran[ran0..], at)
        invariant Prompt(entered, entered0, at) ==> |DueOf(Snap(), at)| + i <= |old(timers)|
      {
        ghost var r0, before, ran1 := ran[ran0..], entered, ran;
        Turn(pool, start, r0, at);
        assert ran[ran0..] == r0 + ran[|ran1|..];
        PromptParts(before, entered, entered0, at);
        i := i + 1;
        finished := TestFirst(captured, at);
      }
      KeptAtTheEnd(start, ran[ran0..]);
      forall r | r in ran[ran0..]
        ensures DelayKept(r)
      {
        ArmedKeepsDelay(r, at);
      }
      if Prompt(entered, entered0, at) {
        AtTheEnd(start, ran[ran0..], at, finished);
      }
    }

    /** One turn: the first timer, taken for due, is run. */
    method Turn(pool: seq<TimerSource>, ghost start: Snapshot, ghost runs: seq<Run>, ghost at: nat)
      requires Valid() && at <= clock && timers != [] && TakenForDue(timers[0].deadline, at)
      requires KeptOrRun(start, Snap(), runs)
      modifies this, pool
      ensures Valid() && at <= clock && old(removed) <= removed && old(entered) <= entered
      ensures old(ran) <= ran && |ran| == |old(ran)| + 1
      ensures Armed(ran[|old(ran)|], at) && TakenForDue(ran[|old(ran)|].deadline, at)
      ensures KeptOrRun(start, Snap(), runs + ran[|old(ran)|..])
      ensures Prompt(entered, |old(entered)|, at) && old(WithinReach(at)) ==> WithinReach(at)
      ensures Prompt(entered, |old(entered)|, at) && old(WithinReach(at)) && old(Accounted(start, Snap(), runs, at)) ==>
        Accounted(start, Snap(), runs + ran[|old(ran)|..], at) && |DueOf(Snap(), at)| < |old(DueOf(Snap(), at))|
    {
      hide Distinct, Sorted, Accounted, Respects, Kept, KeptOrRun, TakenForDue, Prompt;
      hide Loop.OnTime, Loop.Armed, Loop.WithinReach;
      ghost var mid, account := Snap(), WithinReach(at) && Accounted(start, Snap(), runs, at);
      ghost var e0 := |entered|;
      FirstIsEarliest();
      if account { TakenWithinReach(at); }
      RunFirst(pool, at);
      KeptRemoved(WithoutFirst(mid), Snap());
      KeptOrRunStep(start, mid, Snap(), runs, ran[|ran| - 1]);
      assert ran[|ran| - 1..] == [ran[|ran| - 1]];
      if account && Prompt(entered, e0, at) {
        ArmedOnTime(ran[|ran| - 1], at);
        AccountedStep(start, mid, Snap(), runs, ran[|ran| - 1], at);
        DueShrinks(mid, Snap(), ran[|ran| - 1].timer, at);
      }
    }

    lemma KeptAtTheEnd(start: Snapshot, runs: seq<Run>)
      requires KeptOrRun(start, Snap(), runs)
      ensures forall t <- start.deadlines ::
        (t in timers && t.deadline == start.deadlines[t]) || WasRun(t, runs) || t in removed[|start.removed|..]
    {
      hide WasRun;
    }

    /** A turn on a list with one timer, whose handler adds it again without arming it. */
    method RunAndAdd(t: TimerSource)
      requires Valid() && timers == [t]
      modifies this
      ensures Valid() && timers == [t] && clock == old(clock) && entered == old(entered) + [t.deadline]
      ensures ran == old(ran) + [Run(t, t.deadline, t.setAt, t.ms, clock)]
    {
      hide Distinct, Sorted;
      assert Listed(timers[0]);
      ran := ran + [Run(t, t.deadline, t.setAt, t.ms, clock)];
      RemoveFirst(clock);
      AddTimer(t);
    }

    /** A turn on a list with one timer, whose handler takes some time and arms it again. */
    method RunAndRearm(t: TimerSource, took: nat, ms: nat)
      requires Valid() && timers == [t] && Delay(ms) < HALF
      modifies this, t
      ensures Valid() && timers == [t] && clock == old(clock) + took && t.deadline == clock + Delay(ms)
      ensures ran == old(ran) + [Run(t, old(t.deadline), old(t.setAt), old(t.ms), old(clock))]
    {
      ran := ran + [Run(t, t.deadline, t.setAt, t.ms, clock)];
      RemoveFirst(clock);
      Advance(took);
      SetTimer(t, ms);
      AddTimer(t);
    }

    /** The test of the loop, against the captured time. */
    method TestFirst(captured: u32, ghost at: nat) returns (over: bool)
      requires Valid() && captured == at % WRAP
      ensures over <==> timers == [] || !TakenForDue(timers[0].deadline, at)
    {
      if timers == [] { return true; }
      assert Listed(timers[0]);
      NotDueIff(at, timers[0].deadline);
      over := NotDue(captured, timers[0].timeout);
    }

    lemma TakenWithinReach(at: nat)
      requires Valid() && timers != [] && WithinReach(at)
      ensures TakenForDue(timers[0].deadline, at) <==> timers[0].deadline <= at
    {
      TakenForDueIff(timers[0].deadline, at);
    }

    lemma AtTheEnd(start: Snapshot, runs: seq<Run>, at: nat, finished: bool)
      requires Valid() && WithinReach(at) && Accounted(start, Snap(), runs, at) && Distinct(start.order)
      requires finished <==> timers == [] || !TakenForDue(timers[0].deadline, at)
      ensures |DueOf(Snap(), at)| == 0 ==> finished
      ensures InOrder(runs) && (forall r <- runs :: OnTime(r, at)) && start.removed <= removed
      ensures forall r <- runs :: r.timer in start.deadlines && start.deadlines[r.timer] == r.deadline
      ensures InListOrder(runs, start.order) && OncePerTimer(runs)
      ensures forall t <- start.deadlines | at < start.deadlines[t] ::
        (t in timers && t.deadline == start.deadlines[t]) || t in removed[|start.removed|..]
      ensures finished ==> forall t <- timers :: at < t.deadline
      ensures finished ==> forall t <- start.deadlines :: start.deadlines[t] <= at ==>
                WasRun(t, runs) || t in removed[|start.removed|..]
    {
      hide Distinct, Sorted, TakenForDue, Loop.WithinReach;
      OrderedRunsDiffer(runs, start.order);
      NotDueNotRun(start, runs, at);
      if timers != [] {
        TakenWithinReach(at);
        FirstIsEarliest();
        if timers[0].deadline <= at { assert timers[0] in DueOf(Snap(), at); }
      }
    }

    lemma NotDueNotRun(start: Snapshot, runs: seq<Run>, at: int)
      requires forall r <- runs :: OnTime(r, at)
      requires forall r <- runs :: r.timer in start.deadlines && start.deadlines[r.timer] == r.deadline
      ensures forall t <- start.deadlines | at < start.deadlines[t] :: !WasRun(t, runs)
    {
      forall t | t in start.deadlines && WasRun(t, runs)
        ensures start.deadlines[t] <= at
      {
        var i :| 0 <= i < |runs| && runs[i].timer == t;
        assert runs[i] in runs;
      }
    }

    lemma DueAtMost(at: int)
      requires Valid()
      ensures |DueOf(Snap(), at)| <= |timers|
    {
      MembersAtMost(timers, DueOf(Snap(), at));
    }

    lemma AccountedStart(at: int)
      requires Valid() && at == clock
      ensures Accounted(Snap(), Snap(), [], at) && KeptOrRun(Snap(), Snap(), []) && WithinReach(at)
    {
      hide Earlier, Distinct, Sorted;
    }

    lemma FirstIsEarliest()
      requires Valid() && timers != []
      ensures forall t <- timers :: timers[0].deadline <= t.deadline
    {
    }

    /** A run was of a timer armed as told and within half the range of its deadline. */
    ghost predicate Armed(r: Run, at: int)
    {
      && at <= r.at && InWindow(r.deadline, r.at)
      && (mode.Tick? ==> mode.period > 0) && r.deadline == r.setAt + Delay(r.ms)
    }

    lemma ArmedOnTime(r: Run, at: int)
      requires Armed(r, at)
      ensures r.deadline <= at ==> OnTime(r, at)
    {
    }

    /** A run happened no earlier than its deadline, which lay at least its delay after arming. */
    ghost predicate OnTime(r: Run, at: int)
    {
      r.deadline <= at <= r.at && (mode.Tick? ==> mode.period > 0) && r.deadline == r.setAt + Delay(r.ms)
    }

    /** Bookkeeping of a pass: runs in order and on time, due timers run, removed or still due. */
    ghost predicate Accounted(start: Snapshot, s: Snapshot, runs: seq<Run>, at: int)
    {
      && InOrder(runs) && (forall r <- runs :: OnTime(r, at))
      && Scheduled(start, s, runs, at) && KeptOrRun(start, s, runs)
      && (forall t <- s.deadlines | s.deadlines[t] <= at ::
            t in start.deadlines && start.deadlines[t] == s.deadlines[t])
      && (forall r <- runs, t <- s.deadlines :: r.deadline <= s.deadlines[t])
    }

    lemma ScheduledStep(start: Snapshot, mid: Snapshot, s: Snapshot, runs: seq<Run>, r: Run, at: int)
      requires Scheduled(start, mid, runs, at) && r.deadline <= at
      requires r.timer in mid.deadlines && mid.deadlines[r.timer] == r.deadline
      requires r.timer in start.deadlines && start.deadlines[r.timer] == r.deadline
      requires forall t <- mid.deadlines :: t in mid.order
      requires mid.order != [] && mid.order[0] == r.timer && Respects(WithoutFirst(mid), s, at)
      ensures Scheduled(start, s, runs + [r], at)
    {
      hide Earlier;
      FirstIsEarlier(mid.order);
      forall t | t in s.deadlines && s.deadlines[t] <= at
        ensures t in mid.deadlines && mid.deadlines[t] <= at && Earlier(start.order, r.timer, t)
      {
        assert t in WithoutFirst(mid).deadlines && t in mid.order && t != mid.order[0];
        assert mid.order == [mid.order[0]] + mid.order[1..];
      }
      RunsExtend(runs, r, start.order);
    }

    lemma AccountedStep(start: Snapshot, mid: Snapshot, s: Snapshot, runs: seq<Run>, r: Run, at: int)
      requires Accounted(start, mid, runs, at) && OnTime(r, at)
      requires forall t <- mid.deadlines :: t in mid.order
      requires r.timer in mid.deadlines && mid.deadlines[r.timer] == r.deadline
      requires forall t <- mid.deadlines :: r.deadline <= mid.deadlines[t]
      requires mid.order != [] && mid.order[0] == r.timer && Respects(WithoutFirst(mid), s, at)
      ensures Accounted(start, s, runs + [r], at)
    {
      hide WasRun, InOrder, Scheduled, KeepsOrder, Kept, KeptOrRun, Loop.OnTime;
      RunsGrow(runs, r);
      KeptOrRunStep(start, mid, s, runs, r);
      assert InOrder(runs + [r]) && forall x <- runs + [r] :: OnTime(x, at);
      OnTimeBound(r, at);
      ScheduledStep(start, mid, s, runs, r, at);
    }

    lemma OnTimeBound(r: Run, at: int)
      requires OnTime(r, at)
      ensures r.deadline <= at
    {
    }
  }

  /** A pass that captured the time 2: its first timer runs on time, and a handler that takes one
      count and arms the timer again with a delay short of half the range makes the pass run it
      over and over, each time before its deadline.  After any number of further turns, without
      time passing, the pass is not over. */
  method EndlessPass(turns: nat) returns (l: Loop, t: TimerSource)
    ensures fresh(l) && fresh(t) && l.Valid() && l.clock == 3 && l.timers == [t] && TakenForDue(t.deadline, 2)
    ensures |l.ran| == turns + 1 && l.ran[0].deadline == l.ran[0].at == 2
    ensures forall i :: 1 <= i <= turns ==> l.ran[i].timer == t && l.ran[i].at == 3 < l.ran[i].deadline
  {
    hide Distinct, Sorted, Loop.Valid, Loop.Listed;
    l := new Loop(TimeMs);
    t := new TimerSource();
    l.SetTimer(t, 1);
    l.AddTimer(t);
    l.Advance(2);
    l.RunAndRearm(t, 1, HALF - 2);
    for i := 0 to turns
      invariant fresh(l) && fresh(t) && l.Valid() && l.mode == TimeMs && l.clock == 3
      invariant l.timers == [t] && t.deadline == HALF + 2
      invariant |l.ran| == i + 1 && l.ran[0].deadline == l.ran[0].at == 2
      invariant forall j :: 1 <= j <= i ==> l.ran[j].timer == t && l.ran[j].at == 3 < l.ran[j].deadline
    {
      l.RunAndRearm(t, 0, HALF - 2);
    }
  }

  /** A pass whose handler adds the timer that has just run again without arming it: it is due as
      before and runs in every turn.  After any number of turns the pass is not over. */
  method EndlessAddPass(turns: nat) returns (l: Loop, t: TimerSource)
    ensures fresh(l) && fresh(t) && l.Valid() && l.clock == 2 && l.timers == [t] && TakenForDue(t.deadline, 2)
    ensures |l.ran| == turns && forall i :: 0 <= i < turns ==> l.ran[i].timer == t && l.ran[i].deadline == 2
    ensures turns > 1 ==> !OncePerTimer(l.ran)
  {
    hide Distinct, Sorted, Loop.Valid, Loop.Listed;
    l := new Loop(TimeMs);
    t := new TimerSource();
    l.SetTimer(t, 1);
    l.AddTimer(t);
    l.Advance(2);
    for i := 0 to turns
      invariant fresh(l) && fresh(t) && l.Valid() && l.mode == TimeMs && l.clock == 2
      invariant l.timers == [t] && t.deadline == 2
      invariant |l.ran| == i && forall j :: 0 <= j < i ==> l.ran[j].timer == t && l.ran[j].deadline == 2
    {
      l.RunAndAdd(t);
    }
    assert turns > 1 ==> l.ran[0].timer == l.ran[1].timer;
  }

  /** Runs are of timers listed and due from the start, in the order of the list, and in front of
      the due timers still listed, which keep their order. */
  ghost predicate Scheduled(start: Snapshot, s: Snapshot, runs: seq<Run>, at: int) {
    && (forall r <- runs :: r.timer in start.deadlines && start.deadlines[r.timer] == r.deadline)
    && InListOrder(runs, start.order) && KeepsOrder(start, s, at)
    && (forall r <- runs, t <- s.deadlines | s.deadlines[t] <= at :: Earlier(start.order, r.timer, t))
  }

  lemma RunsExtend(runs: seq<Run>, r: Run, ts: seq<TimerSource>)
    requires InListOrder(runs, ts) && forall x <- runs :: Earlier(ts, x.timer, r.timer)
    ensures InListOrder(runs + [r], ts)
  {
    hide Earlier;
    assert forall i :: 0 <= i < |runs| ==> runs[i] in runs;
  }

  lemma OrderedRunsDiffer(runs: seq<Run>, ts: seq<TimerSource>)
    requires Distinct(ts) && InListOrder(runs, ts)
    ensures OncePerTimer(runs)
  {
    hide Earlier, Distinct;
    forall i, j | 0 <= i < j < |runs|
      ensures runs[i].timer != runs[j].timer
    {
      NotEarlierThanItself(ts, runs[i].timer, runs[j].timer);
    }
  }

  /** Every deadline added since lies after the captured time, by less than half the range. */
  ghost predicate Prompt(entered: seq<int>, since: nat, at: int) {
    forall i :: since <= i < |entered| ==> 0 < entered[i] - at < HALF
  }

  lemma PromptParts(before: seq<int>, after: seq<int>, since: nat, at: int)
    requires before <= after && since <= |before|
    ensures Prompt(after, since, at) <==> Prompt(before, since, at) && Prompt(after, |before|, at)
  {
  }

  lemma {:induction false} MembersAtMost(ts: seq<TimerSource>, s: set<TimerSource>)
    requires forall t <- s :: t in ts
    ensures |s| <= |ts|
    decreases |ts|
  {
    if ts == [] {
      assert s == {};
    } else {
      MembersAtMost(ts[1..], s - {ts[0]});
    }
  }

  /** Every timer of a is still listed as it was, or was removed. */
  ghost predicate Kept(a: Snapshot, b: Snapshot) {
    && a.removed <= b.removed
    && (forall t <- a.deadlines ::
          (t in b.deadlines && b.deadlines[t] == a.deadlines[t]) || t in b.removed[|a.removed|..])
  }

  /** Every timer of start is still listed as it was, has run, or was removed. */
  ghost predicate KeptOrRun(start: Snapshot, s: Snapshot, runs: seq<Run>) {
    && start.removed <= s.removed
    && (forall t <- start.deadlines ::
          || (t in s.deadlines && s.deadlines[t] == start.deadlines[t])
          || WasRun(t, runs) || t in s.removed[|start.removed|..])
  }

  lemma KeptRemoved(a: Snapshot, b: Snapshot)
    requires Kept(a, b)
    ensures a.removed <= b.removed
  {
  }

  lemma KeptTrans(a: Snapshot, b: Snapshot, c: Snapshot)
    requires Kept(a, b) && Kept(b, c)
    ensures Kept(a, c)
  {
    SuffixGrows(a.removed, b.removed, c.removed);
  }

  lemma KeptInsert(a: Snapshot, t: TimerSource, deadline: int, i: nat)
    requires i <= |a.order| && t !in a.deadlines
    ensures Kept(a, Snapshot(a.deadlines[t := deadline], a.order[..i] + [t] + a.order[i..], a.removed))
  {
  }

  lemma KeptOrRunStep(start: Snapshot, mid: Snapshot, s: Snapshot, runs: seq<Run>, r: Run)
    requires KeptOrRun(start, mid, runs)
    requires mid.order != [] && mid.order[0] == r.timer && Kept(WithoutFirst(mid), s)
    ensures KeptOrRun(start, s, runs + [r])
  {
    hide WasRun;
    RunsGrow(runs, r);
    SuffixGrows(start.removed, mid.removed, s.removed);
  }

  ghost function DueOf(s: Snapshot, at: int): set<TimerSource> {
    set t | t in s.deadlines && s.deadlines[t] <= at
  }

  lemma DueShrinks(mid: Snapshot, s: Snapshot, t: TimerSource, at: int)
    requires t in mid.deadlines && mid.deadlines[t] <= at
    requires mid.order != [] && mid.order[0] == t && Respects(WithoutFirst(mid), s, at)
    ensures DueOf(s, at) < DueOf(mid, at) && |DueOf(s, at)| < |DueOf(mid, at)|
  {
    var less, more := DueOf(s, at), DueOf(mid, at);
    assert t in more && t !in less && less <= more;
    assert more == less + (more - less) && t in more - less;
  }

  lemma RunsGrow(runs: seq<Run>, r: Run)
    ensures forall t :: WasRun(t, runs) ==> WasRun(t, runs + [r])
    ensures WasRun(r.timer, runs + [r])
    ensures InOrder(runs) && (forall x <- runs :: x.deadline <= r.deadline) ==> InOrder(runs + [r])
  {
    assert (runs + [r])[|runs|] == r;
    forall t | WasRun(t, runs)
      ensures WasRun(t, runs + [r])
    {
      var i :| 0 <= i < |runs| && runs[i].timer == t;
      assert (runs + [r])[i].timer == t;
    }
    if InOrder(runs) && (forall x <- runs :: x.deadline <= r.deadline) {
      assert forall i :: 0 <= i < |runs| ==> runs[i] in runs;
    }
  }

  lemma SuffixGrows<T>(a: seq<T>, b: seq<T>, c: seq<T>)
    requires a <= b <= c
    ensures a <= c
    ensures forall x :: x in b[|a|..] ==> x in c[|a|..]
    ensures forall x :: x in c[|b|..] ==> x in c[|a|..]
  {
    assert b[|a|..] <= c[|a|..];
    assert c[|a|..][|b| - |a|..] == c[|b|..];
  }

  /** Taking the first element out of a list without repetitions. */
  lemma FirstTaken(before: seq<TimerSource>, after: seq<TimerSource>)
    requires before != [] && Distinct(before)
    requires exists i :: 0 <= i < |before| && before[i] == before[0] && after == before[..i] + before[i + 1..]
    ensures after == before[1..] && before[0] !in after
    ensures forall u :: u in before <==> u == before[0] || u in after
  {
    var i :| 0 <= i < |before| && before[i] == before[0] && after == before[..i] + before[i + 1..];
    assert i == 0;
    assert before == [before[0]] + before[1..];
  }

  /** Deadlines of the listed timers, and the removals so far. */
  datatype Snapshot = Snapshot(deadlines: map<TimerSource, int>, order: seq<TimerSource>, removed: seq<TimerSource>)

  /** t stands in front of u. */
  ghost predicate Earlier(ts: seq<TimerSource>, t: TimerSource, u: TimerSource) {
    exists i, j :: 0 <= i < j < |ts| && ts[i] == t && ts[j] == u
  }

  /** The due timers of b stand in the order they have in a. */
  ghost predicate KeepsOrder(a: Snapshot, b: Snapshot, at: int) {
    forall t <- b.deadlines, u <- b.deadlines | b.deadlines[t] <= at && b.deadlines[u] <= at ::
      Earlier(b.order, t, u) ==> Earlier(a.order, t, u)
  }

  /** What is left when the first timer is taken off the list. */
  ghost function WithoutFirst(s: Snapshot): Snapshot
    requires s.order != []
  {
    Snapshot(s.deadlines - {s.order[0]}, s.order[1..], s.removed)
  }

  lemma InsertKeepsOrder(ts: seq<TimerSource>, i: nat, x: TimerSource)
    requires i <= |ts|
    ensures forall t, u :: t != x && u != x && Earlier(ts[..i] + [x] + ts[i..], t, u) ==> Earlier(ts, t, u)
  {
    var all := ts[..i] + [x] + ts[i..];
    forall t, u | t != x && u != x && Earlier(all, t, u)
      ensures Earlier(ts, t, u)
    {
      var p, q :| 0 <= p < q < |all| && all[p] == t && all[q] == u;
      var p', q' := if p < i then p else p - 1, if q < i then q else q - 1;
      assert ts[p'] == t && ts[q'] == u;
    }
  }

  lemma RemovalKeepsOrder(ts: seq<TimerSource>, i: nat)
    requires i < |ts|
    ensures forall t, u :: Earlier(ts[..i] + ts[i + 1..], t, u) ==> Earlier(ts, t, u)
  {
    var rest := ts[..i] + ts[i + 1..];
    forall t, u | Earlier(rest, t, u)
      ensures Earlier(ts, t, u)
    {
      var p, q :| 0 <= p < q < |rest| && rest[p] == t && rest[q] == u;
      var p', q' := if p < i then p else p + 1, if q < i then q else q + 1;
      assert ts[p'] == t && ts[q'] == u;
    }
  }

  lemma FirstIsEarlier(ts: seq<TimerSource>)
    requires ts != []
    ensures forall t :: t in ts[1..] ==> Earlier(ts, ts[0], t)
    ensures forall t, u :: Earlier(ts[1..], t, u) ==> Earlier(ts, t, u)
  {
    forall t | t in ts[1..]
      ensures Earlier(ts, ts[0], t)
    {
      var i :| 0 <= i < |ts| - 1 && ts[1..][i] == t;
      assert ts[i + 1] == t;
    }
    assert ts[..0] + ts[0 + 1..] == ts[1..];
    RemovalKeepsOrder(ts, 0);
  }

  lemma NotEarlierThanItself(ts: seq<TimerSource>, t: TimerSource, u: TimerSource)
    requires Distinct(ts) && Earlier(ts, t, u)
    ensures t != u && t in ts && u in ts
  {
  }

  /** The runs are in the order of the list. */
  ghost predicate InListOrder(runs: seq<Run>, ts: seq<TimerSource>) {
    forall i, j :: 0 <= i < j < |runs| ==> Earlier(ts, runs[i].timer, runs[j].timer)
  }

  /** No timer runs twice. */
  ghost predicate OncePerTimer(runs: seq<Run>) {
    forall i, j :: 0 <= i < j < |runs| ==> runs[i].timer != runs[j].timer
  }

  /** What handlers leave alone: no due timer appears or changes, due timers keep their order, and
      a timer that disappears was removed on purpose. */
  ghost predicate Respects(a: Snapshot, b: Snapshot, at: int)
    ensures Respects(a, b, at) ==> Kept(a, b)
  {
    && Kept(a, b) && KeepsOrder(a, b, at)
    && (forall t <- b.deadlines :: at < b.deadlines[t] || (t in a.deadlines && a.deadlines[t] == b.deadlines[t]))
  }

  lemma RespectsInsert(a: Snapshot, t: TimerSource, deadline: int, i: nat, at: int)
    requires i <= |a.order| && t !in a.deadlines && at < deadline
    ensures Respects(a, Snapshot(a.deadlines[t := deadline], a.order[..i] + [t] + a.order[i..], a.removed), at)
  {
    hide Earlier;
    InsertKeepsOrder(a.order, i, t);
  }

  lemma RespectsRemove(a: Snapshot, i: nat, at: int)
    requires i < |a.order|
    ensures var t := a.order[i];
            Respects(a, Snapshot(a.deadlines - {t}, a.order[..i] + a.order[i + 1..], a.removed + [t]), at)
  {
    hide Earlier;
    RemovalKeepsOrder(a.order, i);
    assert (a.removed + [a.order[i]])[|a.removed|..] == [a.order[i]];
  }

  lemma InsertMembers(ts: seq<TimerSource>, i: nat, t: TimerSource)
    requires i <= |ts|
    ensures forall u :: u in ts[..i] + [t] + ts[i..] <==> u == t || u in ts
  {
    assert ts == ts[..i] + ts[i..];
  }

  lemma RemovalMembers(ts: seq<TimerSource>, i: nat)
    requires Distinct(ts) && i < |ts|
    ensures forall u :: u in ts[..i] + ts[i + 1..] <==> u != ts[i] && u in ts
  {
    assert ts == ts[..i] + [ts[i]] + ts[i + 1..];
  }

  lemma RespectsSelf(a: Snapshot, at: int)
    ensures Respects(a, a, at)
  {
    hide Earlier;
  }

  lemma RespectsTrans(a: Snapshot, b: Snapshot, c: Snapshot, at: int)
    requires Respects(a, b, at) && Respects(b, c, at)
    ensures Respects(a, c, at)
  {
    hide Earlier;
    SuffixGrows(a.removed, b.removed, c.removed);
  }

  ghost predicate InOrder(runs: seq<Run>) {
    forall i, j :: 0 <= i <= j < |runs| ==> runs[i].deadline <= runs[j].deadline
  }

  ghost predicate WasRun(t: TimerSource, runs: seq<Run>) {
    exists i :: 0 <= i < |runs| && runs[i].timer == t
  }
}
