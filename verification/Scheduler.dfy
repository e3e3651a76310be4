/** schedule and do_timer of kernel/sched.c: whom the scheduler picks, and how long anyone waits.
  *
  * Priorities are fixed and at least 1, and ticks find the processor in user mode.
  */
module Scheduler {
  import opened Wrappers

  datatype Task = Task(running: bool, counter: nat, priority: nat)

  type Tasks = seq<Option<Task>>

  predicate Runnable(ts: Tasks, i: nat) {
    i < |ts| && ts[i].Some? && ts[i].value.running
  }

  function Counter(ts: Tasks, i: nat): nat {
    if i < |ts| && ts[i].Some? then ts[i].value.counter else 0
  }

  /** Priorities are at least 1 and no counter is above what recharging can give. */
  predicate Bounded(ts: Tasks) {
    forall i :: 0 <= i < |ts| && ts[i].Some? ==>
      ts[i].value.priority >= 1 && ts[i].value.counter <= 2 * ts[i].value.priority - 1
  }

  // ---- picking a task ----

  /** The inner loop of schedule over the tasks below `i`, with the best so far. */
  function Scan(ts: Tasks, i: nat, c: int, next: nat): (int, nat)
    requires i <= |ts|
  {
    if i <= 1 then (c, next)
    else if Runnable(ts, i - 1) && Counter(ts, i - 1) > c then Scan(ts, i - 1, Counter(ts, i - 1), i - 1)
    else Scan(ts, i - 1, c, next)
  }

  function Best(ts: Tasks): (int, nat) {
    Scan(ts, |ts|, -1, 0)
  }

  /** `next` is runnable, nobody runnable has a higher counter, and nobody of a higher number has the same. */
  ghost predicate Picks(ts: Tasks, c: int, next: nat) {
    && 1 <= next && Runnable(ts, next) && c == Counter(ts, next)
    && forall i: nat :: 1 <= i && Runnable(ts, i) ==> Counter(ts, i) < c || (Counter(ts, i) == c && i <= next)
  }

  lemma {:induction false} ScanPicks(ts: Tasks, i: nat, c: int, next: nat)
    requires i <= |ts| && c >= -1 && (c == -1 ==> next == 0)
    requires c >= 0 ==> 1 <= next && Runnable(ts, next) && c == Counter(ts, next) && next >= i
    requires forall x: nat :: i <= x && 1 <= x && Runnable(ts, x) ==>
             Counter(ts, x) < c || (Counter(ts, x) == c && x <= next)
    ensures var (c', next') := Scan(ts, i, c, next);
      if c' == -1 then next' == 0 && forall x: nat :: 1 <= x ==> !Runnable(ts, x) else Picks(ts, c', next')
  {
    if i > 1 {
      if Runnable(ts, i - 1) && Counter(ts, i - 1) > c {
        ScanPicks(ts, i - 1, Counter(ts, i - 1), i - 1);
      } else {
        ScanPicks(ts, i - 1, c, next);
      }
    }
  }

  lemma BestPicks(ts: Tasks)
    ensures var (c, next) := Best(ts);
      if c == -1 then next == 0 && forall x: nat :: 1 <= x ==> !Runnable(ts, x) else Picks(ts, c, next)
  {
    ScanPicks(ts, |ts|, -1, 0);
  }

  // ---- recharging ----

  function RechargedTask(o: Option<Task>): Option<Task> {
    if o.Some? then Some(o.value.(counter := o.value.counter / 2 + o.value.priority)) else o
  }

  /** All tasks but the first. */
  function Recharged(ts: Tasks): (r: Tasks)
    ensures |r| == |ts| && forall i :: 0 <= i < |ts| ==> r[i] == if i == 0 then ts[0] else RechargedTask(ts[i])
  {
    seq(|ts|, i requires 0 <= i < |ts| => if i == 0 then ts[0] else RechargedTask(ts[i]))
  }

  function Schedule(ts: Tasks): (Tasks, nat) {
    if Best(ts).0 == 0 then (Recharged(ts), Best(Recharged(ts)).1) else (ts, Best(ts).1)
  }

  /** All tasks but the first have, on top of their priority, half of what they had; nothing else is changed. */
  predicate HalfKept(ts: Tasks, r: Tasks) {
    && |r| == |ts| && (ts != [] ==> r[0] == ts[0])
    && forall i :: 1 <= i < |ts| ==>
         if ts[i].None? then r[i].None? else
         && r[i] == Some(ts[i].value.(counter := Counter(r, i)))
         && 0 <= Counter(ts, i) - 2 * (Counter(r, i) - ts[i].value.priority) <= 1
  }

  /** Recharging never lifts a counter over 2 * priority - 1, and one round of it is enough. */
  lemma RechargeBounded(ts: Tasks)
    requires Bounded(ts)
    ensures Bounded(Recharged(ts)) && Best(Recharged(ts)).0 != 0
    ensures forall i: nat :: Runnable(Recharged(ts), i) <==> Runnable(ts, i)
    ensures HalfKept(ts, Recharged(ts))
  {
    var r := Recharged(ts);
    BestPicks(r);
    var (c, next) := Best(r);
    if c != -1 {
      assert Picks(r, c, next);
      assert r[next] == RechargedTask(ts[next]);
    }
  }

  ghost predicate SomebodyRunnable(ts: Tasks) {
    exists i: nat :: 1 <= i && Runnable(ts, i)
  }

  ghost predicate AllUsedUp(ts: Tasks) {
    forall i: nat :: 1 <= i && Runnable(ts, i) ==> Counter(ts, i) == 0
  }

  /** schedule picks a runnable task with counter left, the highest counter and number first; the idle task only when no
    * other is runnable; and it recharges exactly when there are runnable ones and all of them have used theirs up. */
  lemma SchedulePicks(ts: Tasks)
    requires Bounded(ts)
    ensures var (ts', next) := Schedule(ts);
      && Bounded(ts') && |ts'| == |ts| && (forall i: nat :: Runnable(ts', i) <==> Runnable(ts, i))
      && (next == 0 <==> forall i: nat :: 1 <= i ==> !Runnable(ts, i))
      && (next != 0 ==> Counter(ts', next) > 0 && Picks(ts', Counter(ts', next), next))
      && ts' == if SomebodyRunnable(ts) && AllUsedUp(ts) then Recharged(ts) else ts
  {
    hide Best;
    BestPicks(ts);
    RechargeBounded(ts);
    BestPicks(Recharged(ts));
  }

  // ---- a run ----

  /** What happens: a clock tick, the running task sleeps or exits, some task is woken. */
  datatype Event = Tick | Sleep | Exit | Wake(i: nat)

  datatype State = State(tasks: Tasks, current: nat)

  function Rescheduled(ts: Tasks): State {
    State(Schedule(ts).0, Schedule(ts).1)
  }

  function SetTask(ts: Tasks, i: nat, o: Option<Task>): Tasks {
    if i < |ts| then ts[i := o] else ts
  }

  /** The idle task neither sleeps nor exits; its state is not looked at. */
  function Step(s: State, e: Event): State {
    if s.current >= |s.tasks| || s.tasks[s.current].None? then s else
    var t := s.tasks[s.current].value;
    match e
    case Tick =>
      if t.counter > 1 then s.(tasks := SetTask(s.tasks, s.current, Some(t.(counter := t.counter - 1))))
      else Rescheduled(SetTask(s.tasks, s.current, Some(t.(counter := 0))))
    case Sleep =>
      Rescheduled(if s.current == 0 then s.tasks else SetTask(s.tasks, s.current, Some(t.(running := false))))
    case Exit =>
      if s.current == 0 then s else Rescheduled(SetTask(s.tasks, s.current, None))
    case Wake(i) =>
      if i < |s.tasks| && s.tasks[i].Some? then
        s.(tasks := SetTask(s.tasks, i, Some(s.tasks[i].value.(running := true))))
      else s
  }

  function Run(s: State, es: seq<Event>): State
    decreases |es|
  {
    if es == [] then s else Run(Step(s, es[0]), es[1..])
  }

  function Ticks(es: seq<Event>): nat {
    if es == [] then 0 else (if es[0].Tick? then 1 else 0) + Ticks(es[1..])
  }

  /** Whoever runs has ticks left, unless it is the idle task. */
  predicate Inv(s: State) {
    && |s.tasks| > 0 && s.tasks[0].Some? && s.current < |s.tasks| && s.tasks[s.current].Some? && Bounded(s.tasks)
    && (s.current != 0 ==> Runnable(s.tasks, s.current) && Counter(s.tasks, s.current) > 0)
  }

  lemma StepKeepsInv(s: State, e: Event)
    requires Inv(s)
    ensures Inv(Step(s, e)) && |Step(s, e).tasks| == |s.tasks|
  {
    hide Schedule, Picks, Recharged;
    var t := s.tasks[s.current].value;
    match e
    case Tick => RescheduleInv(SetTask(s.tasks, s.current, Some(t.(counter := 0))));
    case Sleep =>
      RescheduleInv(s.tasks);
      RescheduleInv(SetTask(s.tasks, s.current, Some(t.(running := false))));
    case Exit => if s.current != 0 { RescheduleInv(SetTask(s.tasks, s.current, None)); }
    case Wake(i) =>
  }

  lemma RescheduleInv(ts: Tasks)
    requires Bounded(ts) && |ts| > 0 && ts[0].Some?
    ensures Inv(Rescheduled(ts)) && |Rescheduled(ts).tasks| == |ts|
  {
    SchedulePicks(ts);
    assert Schedule(ts).0[0] == ts[0];
  }

  /** Counters stay at most 2 * priority - 1 over every run. */
  lemma {:induction false} RunKeepsInv(s: State, es: seq<Event>)
    requires Inv(s)
    ensures Inv(Run(s, es))
    decreases |es|
  {
    if es != [] {
      StepKeepsInv(s, es[0]);
      RunKeepsInv(Step(s, es[0]), es[1..]);
    }
  }

  // ---- how long a task runs ----

  /** `n` ticks and nothing else. */
  function TicksOnly(n: nat): seq<Event> {
    seq(n, _ => Tick)
  }

  /** A task runs for just as many ticks as its counter says: each takes one, the last makes the scheduler run. */
  lemma {:induction false} SliceIs(s: State, n: nat)
    requires Inv(s) && n < Counter(s.tasks, s.current)
    ensures Run(s, TicksOnly(n)).current == s.current && |Run(s, TicksOnly(n)).tasks| == |s.tasks|
    ensures Counter(Run(s, TicksOnly(n)).tasks, s.current) == Counter(s.tasks, s.current) - n
    ensures forall i :: 0 <= i < |s.tasks| && i != s.current ==> Run(s, TicksOnly(n)).tasks[i] == s.tasks[i]
    ensures n + 1 == Counter(s.tasks, s.current) ==>
              Step(Run(s, TicksOnly(n)), Tick) ==
              Rescheduled(s.tasks[s.current := Some(s.tasks[s.current].value.(counter := 0))])
    decreases n
  {
    hide Rescheduled;
    if n > 0 {
      var s' := Step(s, Tick);
      StepKeepsInv(s, Tick);
      SliceIs(s', n - 1);
      assert TicksOnly(n)[1..] == TicksOnly(n - 1);
      var cleared := Some(s.tasks[s.current].value.(counter := 0));
      assert s'.tasks[s.current := cleared] == s.tasks[s.current := cleared];
    }
  }

  /** A task that sleeps or exits is not the one picked, and one that is woken can be. */
  lemma StepEffects(s: State, i: nat)
    requires Inv(s)
    ensures s.current != 0 ==> Step(s, Sleep).current != s.current && Step(s, Exit).current != s.current
    ensures i < |s.tasks| && s.tasks[i].Some? ==> Runnable(Step(s, Wake(i)).tasks, i)
    ensures forall x: nat :: x != i ==> (Runnable(Step(s, Wake(i)).tasks, x) <==> Runnable(s.tasks, x))
  {
    hide Schedule, Recharged;
    if s.current != 0 {
      var t := s.tasks[s.current].value;
      SchedulePicks(SetTask(s.tasks, s.current, Some(t.(running := false))));
      SchedulePicks(SetTask(s.tasks, s.current, None));
    }
  }

  // ---- how long a runnable task waits ----

  /** The counters of all tasks below `n` but `t`. */
  function Others(ts: Tasks, t: nat, n: nat): nat
    requires n <= |ts|
  {
    if n == 0 then 0 else Others(ts, t, n - 1) + if n - 1 == t then 0 else Counter(ts, n - 1)
  }

  /** The most that recharging leaves a task. */
  function Brim(o: Option<Task>): nat {
    if o.None? || o.value.priority == 0 then 0 else 2 * o.value.priority - 1
  }

  /** One recharge to the brim for each of them but the idle task. */
  function Refill(ts: Tasks, t: nat, n: nat): nat
    requires n <= |ts|
  {
    if n == 0 then 0 else Refill(ts, t, n - 1) + if n - 1 == t || n == 1 then 0 else Brim(ts[n - 1])
  }

  /** The ticks `t` may have to wait: what the others have left, one recharge of theirs if `t` has nothing left itself,
    * and one tick if the idle task runs. */
  function Wait(s: State, t: nat): nat {
    Others(s.tasks, t, |s.tasks|) + (if Counter(s.tasks, t) == 0 then Refill(s.tasks, t, |s.tasks|) else 0)
    + (if s.current == 0 then 1 else 0)
  }

  lemma {:induction false} OthersSet(ts: Tasks, t: nat, n: nat, x: nat, o: Option<Task>)
    requires n <= |ts| && x < |ts| && x != t
    ensures Others(ts[x := o], t, n) + (if x < n then Counter(ts, x) else 0) ==
            Others(ts, t, n) + (if x < n then Counter(ts[x := o], x) else 0)
  {
    if n > 0 { OthersSet(ts, t, n - 1, x, o); }
  }

  lemma {:induction false} RefillSet(ts: Tasks, t: nat, n: nat, x: nat, o: Option<Task>)
    requires n <= |ts| && x < |ts| && Brim(o) <= Brim(ts[x])
    ensures Refill(ts[x := o], t, n) <= Refill(ts, t, n)
  {
    if n > 0 { RefillSet(ts, t, n - 1, x, o); }
  }

  /** Waking `t` or changing only whether it runs leaves the sums alone. */
  lemma {:induction false} OthersSelf(ts: Tasks, t: nat, n: nat, o: Option<Task>)
    requires n <= |ts| && t < |ts|
    ensures Others(ts[t := o], t, n) == Others(ts, t, n)
  {
    if n > 0 { OthersSelf(ts, t, n - 1, o); }
  }

  lemma {:induction false} RechargeOthers(ts: Tasks, t: nat, n: nat)
    requires n <= |ts| && Bounded(ts)
    ensures Others(Recharged(ts), t, n) <= Others(ts, t, n) + Refill(ts, t, n)
  {
    if n > 0 {
      RechargeOthers(ts, t, n - 1);
      assert Recharged(ts)[n - 1] == if n == 1 then ts[0] else RechargedTask(ts[n - 1]);
    }
  }

  /** A call of schedule costs `t` no more waiting than it was due anyway. */
  lemma RescheduleWaits(ts: Tasks, t: nat)
    requires Bounded(ts) && t >= 1 && Runnable(ts, t)
    ensures var s := Rescheduled(ts);
      && Runnable(s.tasks, t)
      && Wait(s, t) <= Others(ts, t, |ts|) + (if Counter(ts, t) == 0 then Refill(ts, t, |ts|) else 0)
  {
    hide Schedule, Picks;
    SchedulePicks(ts);
    var s := Rescheduled(ts);
    if s.tasks != ts {
      RechargeOthers(ts, t, |ts|);
      assert Counter(ts, t) == 0;
      assert s.tasks[t] == RechargedTask(ts[t]);
    }
  }

  /** Each step leaves a runnable task that is not picked waiting for no longer, and each tick for one tick less. */
  lemma StepWaits(s: State, e: Event, t: nat)
    requires Inv(s) && t >= 1 && Runnable(s.tasks, t) && s.current != t
    ensures var s' := Step(s, e);
      Runnable(s'.tasks, t) && Wait(s', t) + (if e.Tick? then 1 else 0) <= Wait(s, t)
  {
    hide Schedule, Rescheduled, Others, Refill;
    var ts, x, n := s.tasks, s.current, |s.tasks|;
    var task := ts[x].value;
    match e
    case Tick =>
      var o := Some(task.(counter := if task.counter > 1 then task.counter - 1 else 0));
      OthersSet(ts, t, n, x, o);
      RefillSet(ts, t, n, x, o);
      if task.counter <= 1 { RescheduleNotIdle(SetTask(ts, x, o), t); }
    case Sleep =>
      if x == 0 {
        RescheduleNotIdle(ts, t);
      } else {
        var o := Some(task.(running := false));
        OthersSet(ts, t, n, x, o);
        RefillSet(ts, t, n, x, o);
        RescheduleNotIdle(SetTask(ts, x, o), t);
      }
    case Exit =>
      if x != 0 {
        OthersSet(ts, t, n, x, None);
        RefillSet(ts, t, n, x, None);
        RescheduleNotIdle(SetTask(ts, x, None), t);
      }
    case Wake(i) =>
      if i < n && ts[i].Some? {
        var o := Some(ts[i].value.(running := true));
        if i != t { OthersSet(ts, t, n, i, o); } else { OthersSelf(ts, t, n, o); }
        RefillSet(ts, t, n, i, o);
      }
  }

  lemma RescheduleNotIdle(ts: Tasks, t: nat)
    requires Bounded(ts) && t >= 1 && Runnable(ts, t)
    ensures Runnable(Rescheduled(ts).tasks, t)
    ensures Wait(Rescheduled(ts), t) <= Others(ts, t, |ts|) + (if Counter(ts, t) == 0 then Refill(ts, t, |ts|) else 0)
  {
    RescheduleWaits(ts, t);
  }

  /** Nobody starves: a task that is runnable is picked within its Wait, whatever sleeps, exits and wakes there are. */
  lemma {:induction false} BoundedWait(s: State, es: seq<Event>, t: nat)
    requires Inv(s) && t >= 1 && Runnable(s.tasks, t) && Ticks(es) > Wait(s, t)
    ensures exists k: nat :: k <= |es| && Run(s, es[..k]).current == t
    decreases |es|
  {
    hide Step, Wait, Inv;
    if s.current == t {
      assert Run(s, es[..0]).current == t;
    } else {
      StepWaits(s, es[0], t);
      StepKeepsInv(s, es[0]);
      BoundedWait(Step(s, es[0]), es[1..], t);
      var k: nat :| k <= |es[1..]| && Run(Step(s, es[0]), es[1..][..k]).current == t;
      assert es[..k + 1][1..] == es[1..][..k];
      assert Run(s, es[..k + 1]).current == t;
    }
  }

  // ---- the code ----

  class Cpu {
    const task: array<Option<Task>>
    var current: nat

    constructor (n: nat, priority: nat)
      requires n > 0
      ensures task.Length == n && fresh(task) && current == 0
      ensures forall i :: 0 <= i < n ==> task[i] == if i == 0 then Some(Task(true, priority, priority)) else None
    {
      task := new Option<Task>[n](i => if i == 0 then Some(Task(true, priority, priority)) else None);
      current := 0;
    }

    /** schedule without its signal pass: it recharges at most once. */
    method SwitchTask()
      requires task.Length > 0 && Bounded(task[..])
      modifies this`current, task
      ensures task[..] == Schedule(old(task[..])).0 && current == Schedule(old(task[..])).1
    {
      ghost var ts := task[..];
      BestPicks(ts);
      RechargeBounded(ts);
      ghost var recharged := false;
      while true
        invariant task[..] == if recharged then Recharged(ts) else ts
        invariant recharged ==> Best(ts).0 == 0
        decreases !recharged
      {
        var c, next := FindBest();
        if c != 0 {
          current := next;
          return;
        }
        Recharge();
        recharged := true;
      }
    }

    /** The search for the highest counter. */
    method FindBest() returns (c: int, next: nat)
      requires task.Length > 0
      ensures (c, next) == Best(task[..])
    {
      c, next := -1, 0;
      var i := task.Length;
      while i > 1
        invariant 1 <= i <= task.Length && Scan(task[..], i, c, next) == Best(task[..])
      {
        i := i - 1;
        if task[i].Some? && task[i].value.running && task[i].value.counter > c {
          c, next := task[i].value.counter, i;
        }
      }
    }

    /** The loop that recharges all tasks but the first. */
    method Recharge()
      modifies task
      ensures task[..] == Recharged(old(task[..])) && HalfKept(old(task[..]), task[..])
    {
      var i := task.Length;
      while i > 1
        invariant i <= task.Length && (task.Length > 0 ==> i >= 1)
        invariant forall x :: 0 <= x < task.Length ==>
                    task[x] == if x >= i && x > 0 then RechargedTask(old(task[..])[x]) else old(task[..])[x]
      {
        i := i - 1;
        if task[i].Some? {
          task[i] := Some(task[i].value.(counter := task[i].value.counter / 2 + task[i].value.priority));
        }
      }
    }

    /** The last lines of do_timer, for a tick in user mode. */
    method Tick()
      requires Inv(State(task[..], current))
      modifies this`current, task
      ensures State(task[..], current) == Step(old(State(task[..], current)), Event.Tick)
      ensures Inv(State(task[..], current))
    {
      hide Schedule;
      ghost var s := State(task[..], current);
      StepKeepsInv(s, Event.Tick);
      var counter: int := task[current].value.counter - 1;
      if counter > 0 {
        task[current] := Some(task[current].value.(counter := counter));
        return;
      }
      task[current] := Some(task[current].value.(counter := 0));
      SwitchTask();
    }
  }
}
