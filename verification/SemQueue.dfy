/** Named semaphores (kernel/sem.c) over the sleep queues of kernel/sched.c.
  *
  * The kernel never reschedules a task in kernel mode except inside `sleep_on`, so the code between two sleeps is one
  * step.  A task inside `sleep_on` is suspended in `schedule()` and its stack holds the local variable `tmp`; those
  * locals are the only links between sleepers.
  */
module SemQueue {
  import opened Wrappers

  /** Where a task is with respect to semaphores: elsewhere, or inside sleep_on(&semarray[sem].wait). */
  datatype Place = Out | Asleep(sem: nat, tmp: Option<nat>)

  datatype Task = Task(runnable: bool, place: Place)

  datatype Semaphore = Semaphore(value: nat, wait: Option<nat>)

  datatype Kernel = Kernel(sems: seq<Semaphore>, tasks: seq<Task>)

  // ---- the code between two sleeps, as functions of the kernel state ----

  /** `(**p).state = 0; *p = NULL`. */
  function AfterWakeUp(k: Kernel, s: nat): Kernel
    requires s < |k.sems|
  {
    match k.sems[s].wait
    case Some(h) =>
      if h < |k.tasks| then
        k.(tasks := k.tasks[h := k.tasks[h].(runnable := true)], sems := k.sems[s := k.sems[s].(wait := None)])
      else k
    case None => k
  }

  /** sleep_on up to its call of schedule(). */
  function FallAsleep(k: Kernel, s: nat, t: nat): Kernel
    requires s < |k.sems| && t < |k.tasks|
  {
    k.(tasks := k.tasks[t := Task(false, Asleep(s, k.sems[s].wait))],
       sems := k.sems[s := k.sems[s].(wait := Some(t))])
  }

  /** sleep_on from the return of schedule() on: wake the task found in `tmp`. */
  function LeaveSleep(k: Kernel, t: nat): Kernel
    requires t < |k.tasks| && k.tasks[t].place.Asleep?
  {
    var woken := match k.tasks[t].place.tmp
      case Some(u) => if u < |k.tasks| then k.tasks[u := k.tasks[u].(runnable := true)] else k.tasks
      case None => k.tasks;
    k.(tasks := woken[t := woken[t].(place := Out)])
  }

  /** One test of the loop of lines 148-164: sleep at value 0, take a unit otherwise. */
  function TryTake(k: Kernel, s: nat, t: nat): Kernel
    requires s < |k.sems| && t < |k.tasks|
  {
    if k.sems[s].value == 0 then FallAsleep(k, s, t)
    else k.(sems := k.sems[s := k.sems[s].(value := k.sems[s].value - 1)])
  }

  /** What a task does next: call sem_wait or sem_post, create a semaphore in an entry by sem_open (lines 85-93), or go
    * on after schedule() returned in sleep_on. */
  datatype Event = Wait(t: nat, s: nat) | Post(t: nat, s: nat) | Create(t: nat, s: nat, value: nat) | Resume(t: nat)

  predicate Enabled(k: Kernel, e: Event) {
    e.t < |k.tasks| && k.tasks[e.t].runnable &&
    match e
    case Wait(t, s) => s < |k.sems| && k.tasks[t].place.Out?
    case Post(t, s) => s < |k.sems| && k.tasks[t].place.Out?
    case Create(t, s, _) => s < |k.sems| && k.tasks[t].place.Out?
    case Resume(t) => k.tasks[t].place.Asleep? && k.tasks[t].place.sem < |k.sems|
  }

  function Step(k: Kernel, e: Event): Kernel
    requires Enabled(k, e)
  {
    match e
    case Wait(t, s) => TryTake(k, s, t)
    case Post(t, s) => AfterWakeUp(k.(sems := k.sems[s := k.sems[s].(value := k.sems[s].value + 1)]), s)
    case Create(t, s, value) => k.(sems := k.sems[s := Semaphore(value, None)])
    case Resume(t) => TryTake(LeaveSleep(k, t), k.tasks[t].place.sem, t)
  }

  /** A semaphore is created in an entry somebody still waits on: sem_wait accepts the number 0 of a free entry. */
  predicate Drops(k: Kernel, e: Event)
    requires Enabled(k, e)
  {
    e.Create? && k.sems[e.s].wait.Some?
  }

  predicate Legal(k: Kernel, events: seq<Event>)
    decreases |events|
  {
    events == [] || (Enabled(k, events[0]) && Legal(Step(k, events[0]), events[1..]))
  }

  function Run(k: Kernel, events: seq<Event>): Kernel
    requires Legal(k, events)
    decreases |events|
  {
    if events == [] then k else Run(Step(k, events[0]), events[1..])
  }

  /** No event of the run creates a semaphore in an entry whose queue is not empty. */
  predicate DropsNobody(k: Kernel, events: seq<Event>)
    requires Legal(k, events)
    decreases |events|
  {
    events == [] || (!Drops(k, events[0]) && DropsNobody(Step(k, events[0]), events[1..]))
  }

  /** Before anyone has waited: no queues and nobody asleep on a semaphore. */
  predicate Initial(k: Kernel) {
    && (forall s :: 0 <= s < |k.sems| ==> k.sems[s].wait.None?)
    && (forall t :: 0 <= t < |k.tasks| ==> k.tasks[t].place.Out?)
  }

  // ---- the chains of sleepers ----

  predicate AsleepOn(k: Kernel, t: nat, s: nat) {
    t < |k.tasks| && k.tasks[t].place.Asleep? && k.tasks[t].place.sem == s
  }

  predicate Blocked(k: Kernel, u: nat) {
    u < |k.tasks| && k.tasks[u].place.Asleep? && !k.tasks[u].runnable
  }

  /** `t`'s local `tmp` points to `u`. */
  predicate Links(k: Kernel, t: nat, u: nat) {
    t < |k.tasks| && k.tasks[t].place.Asleep? && k.tasks[t].place.tmp == Some(u)
  }

  predicate Queued(k: Kernel, s: nat, u: nat) {
    s < |k.sems| && k.sems[s].wait == Some(u)
  }

  /** Every link leads to a blocked sleeper on the same semaphore that went to sleep earlier. */
  ghost predicate LinksGoBack(k: Kernel, since: seq<nat>)
    requires |since| == |k.tasks|
  {
    forall t: nat, u: nat :: Links(k, t, u) ==>
      AsleepOn(k, u, k.tasks[t].place.sem) && !k.tasks[u].runnable && since[u] < since[t]
  }

  /** No two sleepers point to the same one, so chains do not merge. */
  ghost predicate LinksApart(k: Kernel) {
    forall t: nat, t': nat, u: nat :: Links(k, t, u) && Links(k, t', u) ==> t == t'
  }

  /** The queue head of a semaphore is blocked on it, is nobody's `tmp`, and is there only while the value is 0. */
  ghost predicate HeadsBlocked(k: Kernel) {
    forall s: nat, h: nat :: Queued(k, s, h) ==>
      AsleepOn(k, h, s) && !k.tasks[h].runnable && k.sems[s].value == 0 && forall t: nat :: !Links(k, t, h)
  }

  /** Every blocked sleeper is a queue head or somebody's `tmp`. */
  ghost predicate NobodyForgotten(k: Kernel) {
    forall u: nat :: Blocked(k, u) ==>
      Queued(k, k.tasks[u].place.sem, u) || exists t: nat :: Links(k, t, u)
  }

  /** `since` orders the sleepers by when they called sleep_on. */
  ghost predicate Inv(k: Kernel, since: seq<nat>) {
    && |since| == |k.tasks|
    && (forall t :: 0 <= t < |k.tasks| && k.tasks[t].place.Asleep? ==> k.tasks[t].place.sem < |k.sems|)
    && LinksGoBack(k, since) && LinksApart(k) && HeadsBlocked(k) && NobodyForgotten(k)
  }

  lemma LeavingLinks(k: Kernel, t: nat)
    requires t < |k.tasks| && k.tasks[t].place.Asleep?
    ensures forall a: nat, u: nat :: Links(LeaveSleep(k, t), a, u) <==> Links(k, a, u) && a != t
    ensures forall s: nat, u: nat :: Queued(LeaveSleep(k, t), s, u) <==> Queued(k, s, u)
  {
  }

  lemma LeavingKeepsInv(k: Kernel, since: seq<nat>, t: nat)
    requires Inv(k, since) && t < |k.tasks| && k.tasks[t].place.Asleep? && k.tasks[t].runnable
    ensures Inv(LeaveSleep(k, t), since)
    ensures forall s: nat :: s < |k.sems| ==> !Queued(k, s, t)
  {
    var k' := LeaveSleep(k, t);
    forall s: nat | s < |k.sems| ensures !Queued(k, s, t) {}
    LeavingLinks(k, t);
    forall a: nat, u: nat | Links(k', a, u)
      ensures u < |k'.tasks| && k'.tasks[u] == k.tasks[u] && k'.tasks[a].place == k.tasks[a].place
    {
      assert Links(k, a, u) && !Links(k, t, u);
    }
    forall s: nat, h: nat | Queued(k', s, h) ensures k'.tasks[h] == k.tasks[h] {
      assert Queued(k, s, h) && !Links(k, t, h);
    }
    forall u: nat | Blocked(k', u)
      ensures Queued(k', k'.tasks[u].place.sem, u) || exists a: nat :: Links(k', a, u)
    {
      if a: nat :| Links(k, a, u) { assert Links(k', a, u); }
    }
  }

  /** The clock reads later than every sleep so far. */
  function Later(since: seq<nat>): (c: nat)
    ensures forall t :: 0 <= t < |since| ==> since[t] < c
  {
    if since == [] then 0
    else
      var c := Later(since[..|since| - 1]);
      assert forall t :: 0 <= t < |since| - 1 ==> since[t] == since[..|since| - 1][t];
      if c > since[|since| - 1] then c else since[|since| - 1] + 1
  }

  lemma SleepingLinks(k: Kernel, s: nat, t: nat)
    requires s < |k.sems| && t < |k.tasks| && k.tasks[t].place.Out?
    ensures forall a: nat, u: nat :: Links(FallAsleep(k, s, t), a, u) <==>
              if a == t then k.sems[s].wait == Some(u) else Links(k, a, u)
    ensures forall s': nat, u: nat :: Queued(FallAsleep(k, s, t), s', u) <==>
              if s' == s then u == t else Queued(k, s', u)
  {
  }

  lemma SleepingForgetsNobody(k: Kernel, s: nat, t: nat)
    requires NobodyForgotten(k) && s < |k.sems| && t < |k.tasks| && k.tasks[t].place.Out?
    ensures NobodyForgotten(FallAsleep(k, s, t))
  {
    SleepingLinks(k, s, t);
    var k' := FallAsleep(k, s, t);
    forall u: nat | Blocked(k', u)
      ensures Queued(k', k'.tasks[u].place.sem, u) || exists a: nat :: Links(k', a, u)
    {
      if u != t {
        assert Blocked(k, u);
        if a: nat :| Links(k, a, u) {
          assert a != t && Links(k', a, u);
        } else if k.tasks[u].place.sem == s {
          assert Links(k', t, u);
        } else {
          assert Queued(k', k.tasks[u].place.sem, u);
        }
      }
    }
  }

  lemma SleepingKeepsInv(k: Kernel, since: seq<nat>, s: nat, t: nat)
    requires Inv(k, since) && s < |k.sems| && t < |k.tasks| && k.tasks[t].place.Out? && k.sems[s].value == 0
    ensures Inv(FallAsleep(k, s, t), since[t := Later(since)])
  {
    SleepingLinks(k, s, t);
    SleepingForgetsNobody(k, s, t);
    var k' := FallAsleep(k, s, t);
    assert forall a: nat :: !Links(k, a, t);
    forall a: nat, u: nat | Links(k', a, u)
      ensures AsleepOn(k', u, k'.tasks[a].place.sem) && !k'.tasks[u].runnable && u != t
    {
      if a == t { assert Queued(k, s, u); } else { assert Links(k, a, u); }
    }
    forall s': nat, h: nat | Queued(k', s', h)
      ensures AsleepOn(k', h, s') && !k'.tasks[h].runnable && k'.sems[s'].value == 0
      ensures forall a: nat :: !Links(k', a, h)
    {
      if s' != s { assert Queued(k, s', h) && k.sems[s].wait != Some(h); }
    }
  }

  lemma TakingKeepsInv(k: Kernel, since: seq<nat>, s: nat, t: nat) returns (since': seq<nat>)
    requires Inv(k, since) && s < |k.sems| && t < |k.tasks| && k.tasks[t].place.Out?
    ensures Inv(TryTake(k, s, t), since')
  {
    if k.sems[s].value == 0 {
      since' := since[t := Later(since)];
      SleepingKeepsInv(k, since, s, t);
    } else {
      since' := since;
      var k' := TryTake(k, s, t);
      assert forall a: nat, u: nat :: Links(k', a, u) <==> Links(k, a, u);
      assert forall s': nat, u: nat :: Queued(k', s', u) <==> Queued(k, s', u);
    }
  }

  lemma PostingLinks(k: Kernel, t: nat, s: nat)
    requires Enabled(k, Post(t, s))
    ensures forall a: nat, u: nat :: Links(Step(k, Post(t, s)), a, u) <==> Links(k, a, u)
    ensures forall s': nat, u: nat :: Queued(Step(k, Post(t, s)), s', u) <==>
              Queued(k, s', u) && (s' != s || u >= |k.tasks|)
  {
  }

  lemma PostingKeepsInv(k: Kernel, since: seq<nat>, t: nat, s: nat)
    requires Inv(k, since) && Enabled(k, Post(t, s))
    ensures Inv(Step(k, Post(t, s)), since)
  {
    var k' := Step(k, Post(t, s));
    PostingLinks(k, t, s);
    forall u: nat | Blocked(k', u)
      ensures Queued(k', k'.tasks[u].place.sem, u) || exists a: nat :: Links(k', a, u)
    {
      if a: nat :| Links(k, a, u) { assert Links(k', a, u); }
    }
  }

  lemma CreatingKeepsInv(k: Kernel, since: seq<nat>, e: Event)
    requires Inv(k, since) && e.Create? && Enabled(k, e) && !Drops(k, e)
    ensures Inv(Step(k, e), since)
  {
    var k' := Step(k, e);
    assert forall a: nat, u: nat :: Links(k', a, u) <==> Links(k, a, u);
    assert forall s: nat, u: nat :: Queued(k', s, u) <==> Queued(k, s, u);
  }

  lemma StepKeepsInv(k: Kernel, since: seq<nat>, e: Event) returns (since': seq<nat>)
    requires Inv(k, since) && Enabled(k, e) && !Drops(k, e)
    ensures Inv(Step(k, e), since')
  {
    match e
    case Wait(t, s) =>
      since' := TakingKeepsInv(k, since, s, t);
    case Post(t, s) =>
      since' := since;
      PostingKeepsInv(k, since, t, s);
    case Create(_, _, _) =>
      since' := since;
      CreatingKeepsInv(k, since, e);
    case Resume(t) =>
      LeavingKeepsInv(k, since, t);
      since' := TakingKeepsInv(LeaveSleep(k, t), since, k.tasks[t].place.sem, t);
  }

  lemma {:induction false} RunKeepsInv(k: Kernel, since: seq<nat>, events: seq<Event>) returns (since': seq<nat>)
    requires Inv(k, since) && Legal(k, events) && DropsNobody(k, events)
    ensures Inv(Run(k, events), since')
    decreases |events|
  {
    since' := since;
    if events != [] {
      since' := StepKeepsInv(k, since, events[0]);
      since' := RunKeepsInv(Step(k, events[0]), since', events[1..]);
    }
  }

  lemma InitialInv(k: Kernel) returns (since: seq<nat>)
    requires Initial(k)
    ensures Inv(k, since)
  {
    since := seq(|k.tasks|, _ => 0);
    assert forall t: nat, u: nat :: !Links(k, t, u);
  }

  lemma ReachableInv(k0: Kernel, events: seq<Event>) returns (since: seq<nat>)
    requires Initial(k0) && Legal(k0, events) && DropsNobody(k0, events)
    ensures Inv(Run(k0, events), since)
  {
    since := InitialInv(k0);
    since := RunKeepsInv(k0, since, events);
  }

  // ---- a semaphore created over a queue ----

  /** `u` sleeps and no queue and no other sleeper leads to it. */
  ghost predicate Forgotten(k: Kernel, u: nat) {
    Blocked(k, u) && (forall s: nat :: !Queued(k, s, u)) && (forall t: nat :: !Links(k, t, u))
  }

  /** Creating over a queue forgets the sleeper at its head. */
  lemma DroppedIsForgotten(k: Kernel, since: seq<nat>, e: Event)
    requires Inv(k, since) && Enabled(k, e) && Drops(k, e)
    ensures Forgotten(Step(k, e), k.sems[e.s].wait.value)
  {
    var k', h := Step(k, e), k.sems[e.s].wait.value;
    assert Queued(k, e.s, h);
    assert forall a: nat, u: nat :: Links(k', a, u) <==> Links(k, a, u);
    forall s: nat ensures !Queued(k', s, h) {
      if s != e.s && Queued(k', s, h) { assert Queued(k, s, h); }
    }
  }

  /** Nothing any task does brings a forgotten sleeper back, not even a post to its semaphore. */
  lemma {:induction false} ForgottenStays(k: Kernel, events: seq<Event>, u: nat)
    requires Forgotten(k, u) && Legal(k, events)
    ensures Forgotten(Run(k, events), u)
    decreases |events|
  {
    if events != [] {
      ForgottenStep(k, events[0], u);
      ForgottenStays(Step(k, events[0]), events[1..], u);
    }
  }

  lemma ForgottenStep(k: Kernel, e: Event, u: nat)
    requires Forgotten(k, u) && Enabled(k, e)
    ensures Forgotten(Step(k, e), u)
  {
    var k' := Step(k, e);
    assert e.t != u;
    match e {
      case Wait(t, s) => assert !Queued(k, s, u);
      case Post(t, s) => assert !Queued(k, s, u);
      case Create(t, s, _) =>
      case Resume(t) => assert !Links(k, t, u) && !Queued(k, k.tasks[t].place.sem, u);
    }
    assert k'.tasks[u] == k.tasks[u];
    forall s: nat ensures !Queued(k', s, u) { assert !Queued(k, s, u); }
    forall t: nat ensures !Links(k', t, u) { assert !Links(k, t, u); }
  }

  lemma {:induction false} DroppingForgets(k: Kernel, since: seq<nat>, events: seq<Event>) returns (u: nat)
    requires Inv(k, since) && Legal(k, events) && !DropsNobody(k, events)
    ensures Forgotten(Run(k, events), u)
    decreases |events|
  {
    if Drops(k, events[0]) {
      u := k.sems[events[0].s].wait.value;
      DroppedIsForgotten(k, since, events[0]);
      ForgottenStays(Step(k, events[0]), events[1..], u);
    } else {
      var since' := StepKeepsInv(k, since, events[0]);
      u := DroppingForgets(Step(k, events[0]), since', events[1..]);
    }
  }

  /** At the end of a run every blocked sleeper is a queue head or somebody's `tmp` if and only if no semaphore has been
    * created over a queue. */
  lemma NobodyForgottenExactly(k0: Kernel, events: seq<Event>)
    requires Initial(k0) && Legal(k0, events)
    ensures NobodyForgotten(Run(k0, events)) <==> DropsNobody(k0, events)
  {
    var since := InitialInv(k0);
    if DropsNobody(k0, events) {
      since := RunKeepsInv(k0, since, events);
    } else {
      var u := DroppingForgets(k0, since, events);
      assert !Queued(Run(k0, events), Run(k0, events).tasks[u].place.sem, u);
    }
  }

  /** Two calls do it: `t` waits on a free entry and `t'` creates a semaphore there.  `t` then sleeps for good, however
    * large the value. */
  lemma CreateStrands(k0: Kernel, s: nat, t: nat, t': nat, value: nat, more: seq<Event>)
    requires Initial(k0) && s < |k0.sems| && k0.sems[s].value == 0 && t != t'
    requires t < |k0.tasks| && k0.tasks[t].runnable && t' < |k0.tasks| && k0.tasks[t'].runnable
    ensures Legal(k0, [Wait(t, s), Create(t', s, value)])
    ensures var k := Run(k0, [Wait(t, s), Create(t', s, value)]);
            && s < |k.sems| && k.sems[s].value == value && AsleepOn(k, t, s)
            && (Legal(k, more) ==> Blocked(Run(k, more), t))
  {
    var e, e' := Wait(t, s), Create(t', s, value);
    var since := InitialInv(k0);
    since := StepKeepsInv(k0, since, e);
    var k1 := Step(k0, e);
    DroppedIsForgotten(k1, since, e');
    assert [e, e'][1..] == [e'] && [e'][1..] == [];
    assert Enabled(k1, e') && [e'][0] == e';
    assert Legal(Step(k1, e'), []) && Run(Step(k1, e'), []) == Step(k1, e');
    assert Legal(k1, [e']) && Run(k1, [e']) == Step(k1, e');
    if Legal(Step(k1, e'), more) { ForgottenStays(Step(k1, e'), more, t); }
  }

  // ---- no lost wakeup ----

  /** `c` is a chain of sleepers on `s`, each the next one's waker, no task twice; only its first has been woken. */
  predicate WokenChain(k: Kernel, c: seq<nat>, s: nat) {
    && c != []
    && (forall i :: 0 <= i < |c| ==> AsleepOn(k, c[i], s))
    && k.tasks[c[0]].runnable
    && (forall i :: 1 <= i < |c| ==> Links(k, c[i - 1], c[i]) && !k.tasks[c[i]].runnable)
    && (forall i, j :: 0 <= i < j < |c| ==> c[i] != c[j])
  }

  lemma ExtendChain(k: Kernel, c: seq<nat>, s: nat, u: nat)
    requires WokenChain(k, c, s) && AsleepOn(k, u, s) && !k.tasks[u].runnable
    requires Links(k, c[|c| - 1], u) && u !in c
    ensures WokenChain(k, c + [u], s)
  {
  }

  /** Follow the pointers to `u` backwards: every waker fell asleep later, so the walk ends at a woken task. */
  lemma {:induction false} ClimbToWoken(k: Kernel, since: seq<nat>, u: nat, s: nat) returns (c: seq<nat>)
    requires Inv(k, since) && AsleepOn(k, u, s) && (forall h: nat :: !Queued(k, s, h))
    ensures WokenChain(k, c, s) && c[|c| - 1] == u
    ensures forall i :: 0 <= i < |c| - 1 ==> since[c[i]] > since[u]
    decreases Later(since) - since[u]
  {
    if k.tasks[u].runnable {
      c := [u];
    } else {
      assert Blocked(k, u);
      var t: nat :| Links(k, t, u);
      var front := ClimbToWoken(k, since, t, s);
      c := front + [u];
      ExtendChain(k, front, s, u);
    }
  }

  /** Whenever a semaphore has a unit, its queue is empty and every blocked waiter is at the end of a chain whose
    * first task has been woken. */
  lemma NoLostWakeup(k0: Kernel, events: seq<Event>, s: nat, u: nat) returns (c: seq<nat>)
    requires Initial(k0) && Legal(k0, events) && DropsNobody(k0, events) && s < |Run(k0, events).sems|
    requires Run(k0, events).sems[s].value > 0 && AsleepOn(Run(k0, events), u, s)
    ensures Run(k0, events).sems[s].wait == None
    ensures WokenChain(Run(k0, events), c, s) && c[|c| - 1] == u
  {
    var k := Run(k0, events);
    var since := ReachableInv(k0, events);
    if k.sems[s].wait.Some? { assert Queued(k, s, k.sems[s].wait.value); }
    c := ClimbToWoken(k, since, u, s);
  }

  /** The wakeups that run down a chain. */
  function Resumes(c: seq<nat>): seq<Event> {
    seq(|c|, i requires 0 <= i < |c| => Resume(c[i]))
  }

  /** The first task of a chain, when it goes on, makes the rest a chain with a woken first task; it takes a unit if
    * there is one. */
  lemma ResumeHead(k: Kernel, since: seq<nat>, c: seq<nat>, s: nat)
    requires Inv(k, since) && WokenChain(k, c, s)
    ensures Enabled(k, Resume(c[0]))
    ensures |c| > 1 ==> WokenChain(Step(k, Resume(c[0])), c[1..], s)
    ensures k.sems[s].value > 0 ==>
              && Step(k, Resume(c[0])).tasks[c[0]].place == Out
              && Step(k, Resume(c[0])).sems[s].value == k.sems[s].value - 1
  {
    var k' := Step(k, Resume(c[0]));
    if |c| > 1 {
      assert Links(k, c[0], c[1]);
      forall i | 1 <= i < |c| ensures k'.tasks[c[i]] == k.tasks[c[i]].(runnable := i == 1 || k.tasks[c[i]].runnable) {
        assert c[i] != c[0] && (i > 1 ==> c[i] != c[1]);
      }
      forall i | 1 <= i < |c[1..]| ensures Links(k', c[1..][i - 1], c[1..][i]) && !k'.tasks[c[1..][i]].runnable {
        assert Links(k, c[i], c[i + 1]);
      }
    }
  }

  /** Running the tasks of a chain in order, and nothing else, wakes its last one. */
  lemma {:induction false} ChainWakesLast(k: Kernel, since: seq<nat>, c: seq<nat>, s: nat)
    requires Inv(k, since) && WokenChain(k, c, s)
    ensures Legal(k, Resumes(c[..|c| - 1]))
    ensures AsleepOn(Run(k, Resumes(c[..|c| - 1])), c[|c| - 1], s)
    ensures Run(k, Resumes(c[..|c| - 1])).tasks[c[|c| - 1]].runnable
    decreases |c|
  {
    hide Inv, Step;
    var events := Resumes(c[..|c| - 1]);
    if |c| > 1 {
      ResumeHead(k, since, c, s);
      var since' := StepKeepsInv(k, since, Resume(c[0]));
      ChainWakesLast(Step(k, Resume(c[0])), since', c[1..], s);
      assert events[1..] == Resumes(c[1..][..|c[1..]| - 1]);
    }
  }

  /** From every reachable state with a unit available, a run of the already woken tasks alone brings each blocked
    * waiter back, and its first step hands a unit to a waiter. */
  lemma WaitersAreReached(k0: Kernel, events: seq<Event>, s: nat, u: nat) returns (more: seq<Event>)
    requires Initial(k0) && Legal(k0, events) && DropsNobody(k0, events) && s < |Run(k0, events).sems|
    requires Run(k0, events).sems[s].value > 0 && AsleepOn(Run(k0, events), u, s)
    ensures forall i :: 0 <= i < |more| ==> more[i].Resume?
    ensures Legal(Run(k0, events), more)
    ensures AsleepOn(Run(Run(k0, events), more), u, s) && Run(Run(k0, events), more).tasks[u].runnable
    ensures more != [] ==>
              && AsleepOn(Run(k0, events), more[0].t, s)
              && Step(Run(k0, events), more[0]).tasks[more[0].t].place == Out
  {
    var c := NoLostWakeup(k0, events, s, u);
    var since := ReachableInv(k0, events);
    ChainWakesLast(Run(k0, events), since, c, s);
    ResumeHead(Run(k0, events), since, c, s);
    more := Resumes(c[..|c| - 1]);
  }

  // ---- the value is the initial value plus the posts minus the completed waits ----

  /** `e` lets its task return from sem_wait on `s`. */
  predicate Completes(k: Kernel, e: Event, s: nat)
    requires Enabled(k, e)
  {
    match e
    case Wait(t, s') => s' == s && k.sems[s].value > 0
    case Post(_, _) => false
    case Create(_, _, _) => false
    case Resume(t) => k.tasks[t].place.sem == s && k.sems[s].value > 0
  }

  function Posts(events: seq<Event>, s: nat): nat {
    if events == [] then 0
    else (if events[0].Post? && events[0].s == s then 1 else 0) + Posts(events[1..], s)
  }

  function Completions(k: Kernel, events: seq<Event>, s: nat): nat
    requires Legal(k, events)
    decreases |events|
  {
    if events == [] then 0
    else (if Completes(k, events[0], s) then 1 else 0) + Completions(Step(k, events[0]), events[1..], s)
  }

  lemma StepCounts(k: Kernel, e: Event, s: nat)
    requires Enabled(k, e) && s < |k.sems| && !(e.Create? && e.s == s)
    ensures |Step(k, e).sems| == |k.sems|
    ensures Step(k, e).sems[s].value + (if Completes(k, e, s) then 1 else 0)
         == k.sems[s].value + (if e.Post? && e.s == s then 1 else 0)
  {
  }

  /** Over any run from any state on in which the semaphore is not created anew, whatever the interleaving and however
    * often tasks are woken in vain. */
  lemma {:induction false} ValueIsConserved(k: Kernel, events: seq<Event>, s: nat)
    requires Legal(k, events) && s < |k.sems|
    requires forall i :: 0 <= i < |events| && events[i].Create? ==> events[i].s != s
    ensures |Run(k, events).sems| == |k.sems|
    ensures Run(k, events).sems[s].value + Completions(k, events, s) == k.sems[s].value + Posts(events, s)
    decreases |events|
  {
    if events != [] {
      StepCounts(k, events[0], s);
      ValueIsConserved(Step(k, events[0]), events[1..], s);
    }
  }

  // ---- the table itself ----

  /** The name the kernel keeps: up to the first NUL, at most 19 characters (sem.c lines 59-70). */
  function KernelName(name: string): (r: string)
    ensures |r| <= 19 && r <= name
    ensures forall i :: 0 <= i < |r| ==> r[i] != '\0'
    ensures |r| == 19 || |r| == |name| || name[|r|] == '\0'
  {
    NameFrom(name, 19)
  }

  function NameFrom(name: string, room: nat): (r: string)
    ensures |r| <= room && r <= name
    ensures forall i :: 0 <= i < |r| ==> r[i] != '\0'
    ensures |r| == room || |r| == |name| || name[|r|] == '\0'
  {
    if room == 0 || name == [] || name[0] == '\0' then []
    else
      var rest := NameFrom(name[1..], room - 1);
      assert name == [name[0]] + name[1..];
      [name[0]] + rest
  }

  /** What a table entry shows of sem.c's structSem besides value and wait. */
  datatype Entry = Entry(id: nat, name: string, cont: nat)

  /** Entries in use are numbered from 1, have a name, and no two have the same one. */
  predicate NamesValid(es: seq<Entry>) {
    && (forall i :: 0 <= i < |es| ==> (es[i].id == 0 && es[i].name == "") || (es[i].id == i + 1 && es[i].name != ""))
    && (forall i, j :: 0 <= i < j < |es| && es[i].id != 0 ==> es[i].name != es[j].name)
  }

  /** Line 74's test succeeds somewhere.  For the empty name it succeeds at a free entry, whose name is empty too. */
  predicate IsOpen(es: seq<Entry>, name: string) {
    exists i :: 0 <= i < |es| && es[i].name == name
  }

  /** The entry is the first one with its number. */
  predicate LedTo(es: seq<Entry>, r: nat) {
    r < |es| && forall k :: 0 <= k < r ==> es[k].id != es[r].id
  }

  predicate HasRoom(es: seq<Entry>) {
    exists i :: 0 <= i < |es| && es[i].id == 0
  }

  class SemTable {
    const entries: array<Entry>
    const sems: array<Semaphore>
    const tasks: array<Task>

    constructor (size: nat, nrTasks: nat)
      ensures fresh(entries) && fresh(sems) && fresh(tasks) && Apart()
      ensures sems.Length == size && tasks.Length == nrTasks
      ensures NamesValid(entries[..]) && Initial(Abs())
      ensures forall i :: 0 <= i < size ==> entries[i] == Entry(0, "", 0) && sems[i] == Semaphore(0, None)
      ensures forall t :: 0 <= t < nrTasks ==> tasks[t] == Task(true, Out)
    {
      entries := new Entry[size](_ => Entry(0, "", 0));
      sems := new Semaphore[size](_ => Semaphore(0, None));
      tasks := new Task[nrTasks](_ => Task(true, Out));
    }

    predicate Apart() {
      entries.Length == sems.Length
    }

    ghost function Abs(): Kernel
      reads sems, tasks
    {
      Kernel(sems[..], tasks[..])
    }

    /** The search of sys_sem_open: the first entry with this name, and the first free one before it. */
    method FindName(kername: string) returns (i: nat, free: Option<nat>)
      ensures i <= entries.Length && (i < entries.Length ==> entries[i].name == kername)
      ensures forall k :: 0 <= k < i ==> entries[k].name != kername
      ensures free.None? ==> forall k :: 0 <= k < i ==> entries[k].id != 0
      ensures free.Some? ==> free.value < i && entries[free.value].id == 0
      ensures free.Some? ==> forall k :: 0 <= k < free.value ==> entries[k].id != 0
      ensures IsOpen(entries[..], kername) <==> i < entries.Length
    {
      i, free := 0, None;
      while i < entries.Length && entries[i].name != kername
        invariant 0 <= i <= entries.Length
        invariant forall k :: 0 <= k < i ==> entries[k].name != kername
        invariant free.None? ==> forall k :: 0 <= k < i ==> entries[k].id != 0
        invariant free.Some? ==> free.value < i && entries[free.value].id == 0
        invariant free.Some? ==> forall k :: 0 <= k < free.value ==> entries[k].id != 0
      {
        if entries[i].id == 0 && free.None? {
          free := Some(i);
        }
        i := i + 1;
      }
      if i < entries.Length { assert entries[..][i].name == kername; }
    }

    /** sys_sem_open: a known name gives its entry, a new one with O_CREAT the first free entry, with the value asked
      * for.  Only then does the state of the protocol change.  The number it gives leads sem_wait and sem_post to just
      * this entry. */
    method SysSemOpen(t: nat, name: string, creat: bool, excl: bool, value: nat) returns (r: Option<nat>)
      requires Apart() && NamesValid(entries[..]) && t < tasks.Length && tasks[t].runnable && tasks[t].place.Out?
      modifies entries, sems
      ensures NamesValid(entries[..])
      ensures r.Some? <==> if old(IsOpen(entries[..], KernelName(name))) then !(creat && excl)
                           else creat && old(HasRoom(entries[..]))
      ensures r.None? ==> entries[..] == old(entries[..]) && sems[..] == old(sems[..])
      ensures r.Some? ==> r.value < entries.Length && entries[r.value].name == KernelName(name)
      ensures r.Some? ==> LedTo(entries[..], r.value)
      ensures r.Some? ==> forall i :: 0 <= i < entries.Length && i != r.value ==>
                            entries[i] == old(entries[i]) && sems[i] == old(sems[i])
      ensures r.Some? && old(IsOpen(entries[..], KernelName(name))) ==>
                sems[..] == old(sems[..])
                  && entries[r.value] == old(entries[r.value]).(cont := old(entries[r.value]).cont + 1)
      ensures r.Some? && !old(IsOpen(entries[..], KernelName(name))) ==>
                old(entries[r.value]).id == 0 && sems[r.value] == Semaphore(value, None)
                && entries[r.value] == Entry(r.value + 1, KernelName(name), 1)
                && forall i :: 0 <= i < r.value ==> old(entries[i]).id != 0
      ensures r.Some? && !old(IsOpen(entries[..], KernelName(name))) ==>
                Enabled(old(Abs()), Create(t, r.value, value)) && Abs() == Step(old(Abs()), Create(t, r.value, value))
    {
      var kername := KernelName(name);
      var i, free := FindName(kername);
      ghost var was := entries[..];
      if i == entries.Length {
        if !creat || free.None? {
          return None;
        }
        assert was[free.value].id == 0;
        entries[free.value] := Entry(free.value + 1, kername, 1);
        sems[free.value] := Semaphore(value, None);
        r := free;
        assert Abs() == Step(old(Abs()), Create(t, r.value, value));
        assert entries[..] == was[r.value := Entry(r.value + 1, kername, 1)];
      } else if creat && excl {
        r := None;
      } else {
        entries[i] := entries[i].(cont := entries[i].cont + 1);
        r := Some(i);
        assert entries[..] == was[i := was[i].(cont := was[i].cont + 1)];
      }
    }

    method WakeUp(s: nat)
      requires s < sems.Length && (sems[s].wait.Some? ==> sems[s].wait.value < tasks.Length)
      modifies sems, tasks
      ensures Abs() == AfterWakeUp(old(Abs()), s)
    {
      if sems[s].wait.Some? {
        var h := sems[s].wait.value;
        tasks[h] := tasks[h].(runnable := true);
        sems[s] := sems[s].(wait := None);
      }
    }

    /** sleep_on up to schedule(): the old queue head goes into the local `tmp`. */
    method SleepOn(s: nat, t: nat)
      requires s < sems.Length && t < tasks.Length
      modifies sems, tasks
      ensures Abs() == FallAsleep(old(Abs()), s, t)
    {
      var tmp := sems[s].wait;
      sems[s] := sems[s].(wait := Some(t));
      tasks[t] := Task(false, Asleep(s, tmp));
    }

    /** Lines 148-167: from taking the lock to returning, or to the next sleep. */
    method WaitLoop(s: nat, t: nat) returns (done: bool)
      requires s < sems.Length && t < tasks.Length
      modifies sems, tasks
      ensures Abs() == TryTake(old(Abs()), s, t)
      ensures done <==> old(sems[s].value) > 0
    {
      done := sems[s].value > 0;
      if !done {
        SleepOn(s, t);
      } else {
        sems[s] := sems[s].(value := sems[s].value - 1);
      }
    }

    /** The loop that looks for the semaphore a task means: the first entry with the number it points at. */
    method FindSem(sem: Option<nat>) returns (s: Option<nat>)
      requires Apart()
      ensures s.Some? ==> s.value < entries.Length && sem == Some(entries[s.value].id)
                          && forall k :: 0 <= k < s.value ==> Some(entries[k].id) != sem
      ensures s.None? ==> sem.None? || forall k :: 0 <= k < entries.Length ==> entries[k].id != sem.value
    {
      if sem.None? {
        return None;
      }
      var i := 0;
      while i < entries.Length
        invariant 0 <= i <= entries.Length && forall k :: 0 <= k < i ==> entries[k].id != sem.value
      {
        if sem.value == entries[i].id {
          return Some(i);
        }
        i := i + 1;
      }
      s := None;
    }

    /** sys_sem_wait; it returns -1 at once, with nothing changed, when `s` comes out as None. */
    method SysSemWait(t: nat, sem: Option<nat>) returns (s: Option<nat>, done: bool)
      requires Apart() && t < tasks.Length && tasks[t].runnable && tasks[t].place.Out?
      modifies sems, tasks
      ensures s.Some? ==> s.value < entries.Length && sem == Some(entries[s.value].id)
                          && forall k :: 0 <= k < s.value ==> Some(entries[k].id) != sem
      ensures s.None? ==> sem.None? || forall k :: 0 <= k < entries.Length ==> entries[k].id != sem.value
      ensures forall r: nat :: LedTo(entries[..], r) && sem == Some(entries[r].id) ==> s == Some(r)
      ensures s.None? ==> Abs() == old(Abs()) && !done
      ensures s.Some? ==> Enabled(old(Abs()), Wait(t, s.value)) && Abs() == Step(old(Abs()), Wait(t, s.value))
      ensures s.Some? ==> (done <==> Completes(old(Abs()), Wait(t, s.value), s.value))
    {
      s := FindSem(sem);
      done := false;
      if s.Some? {
        done := WaitLoop(s.value, t);
      }
    }

    /** What a waiter does when schedule() returns in sleep_on: wake `tmp`, then test the value again. */
    method WaiterResumes(t: nat) returns (done: bool)
      requires Enabled(Abs(), Resume(t))
      requires forall u: nat :: Links(Abs(), t, u) ==> u < tasks.Length
      modifies sems, tasks
      ensures Abs() == Step(old(Abs()), Resume(t))
      ensures done <==> Completes(old(Abs()), Resume(t), old(tasks[t]).place.sem)
    {
      var s := tasks[t].place.sem;
      var tmp := tasks[t].place.tmp;
      if tmp.Some? {
        assert Links(Abs(), t, tmp.value);
        tasks[tmp.value] := tasks[tmp.value].(runnable := true);
      }
      tasks[t] := tasks[t].(place := Out);
      assert Abs() == LeaveSleep(old(Abs()), t);
      done := WaitLoop(s, t);
    }

    /** sys_sem_post; -1 as for sys_sem_wait. */
    method SysSemPost(t: nat, sem: Option<nat>) returns (s: Option<nat>)
      requires Apart() && t < tasks.Length && tasks[t].runnable && tasks[t].place.Out?
      requires forall i :: 0 <= i < sems.Length && sems[i].wait.Some? ==> sems[i].wait.value < tasks.Length
      modifies sems, tasks
      ensures s.Some? ==> s.value < entries.Length && sem == Some(entries[s.value].id)
                          && forall k :: 0 <= k < s.value ==> Some(entries[k].id) != sem
      ensures s.None? ==> sem.None? || forall k :: 0 <= k < entries.Length ==> entries[k].id != sem.value
      ensures forall r: nat :: LedTo(entries[..], r) && sem == Some(entries[r].id) ==> s == Some(r)
      ensures s.None? ==> Abs() == old(Abs())
      ensures s.Some? ==> Enabled(old(Abs()), Post(t, s.value)) && Abs() == Step(old(Abs()), Post(t, s.value))
    {
      s := FindSem(sem);
      if s.Some? {
        var i := s.value;
        sems[i] := sems[i].(value := sems[i].value + 1);
        assert Abs() == old(Abs()).(sems := old(Abs()).sems[i := sems[i]]);
        WakeUp(i);
      }
    }
  }
}
