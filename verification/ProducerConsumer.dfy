/** The bounded buffer of test6: one producer (pc.c) and several consumers (consumer_00.c) over the shared ring of
  * sem_shm.c, from the state after the last initialisation of the shared memory.
  */
module ProducerConsumer {
  const QUENE_NUM: nat := 20

  // ---- the shared ring ----

  datatype Ring = Ring(head: nat, tail: nat, cells: seq<int>)

  predicate IsEmpty(r: Ring)
    requires r.head < |r.cells|
  {
    r.head == r.tail && r.cells[r.head] == 0
  }

  predicate IsFull(r: Ring) {
    (r.head + 1) % QUENE_NUM == r.tail
  }

  /** Entries are written at `head` and taken from `tail`; every other cell is 0. */
  function Contents(r: Ring): seq<int>
    requires |r.cells| == QUENE_NUM && r.head < QUENE_NUM && r.tail < QUENE_NUM
  {
    if r.tail <= r.head then r.cells[r.tail..r.head] else r.cells[r.tail..] + r.cells[..r.head]
  }

  predicate ValidRing(r: Ring) {
    && |r.cells| == QUENE_NUM && r.head < QUENE_NUM && r.tail < QUENE_NUM
    && forall k :: 0 <= k < QUENE_NUM ==>
         (if r.tail <= r.head then r.tail <= k < r.head else r.tail <= k || k < r.head) || r.cells[k] == 0
  }

  /** getQueneValue: -1 and no change when the ring is empty. */
  function Get(r: Ring): (Ring, int)
    requires r.head < |r.cells| && r.tail < |r.cells|
  {
    if IsEmpty(r) then (r, -1)
    else (Ring(r.head, (r.tail + 1) % QUENE_NUM, r.cells[r.tail := 0]), r.cells[r.tail])
  }

  /** putQueneValue: the value is dropped when the ring is full. */
  function Put(r: Ring, v: int): Ring
    requires r.head < |r.cells|
  {
    if IsFull(r) then r
    else Ring((r.head + 1) % QUENE_NUM, r.tail, r.cells[r.head := v])
  }

  lemma RingTests(r: Ring)
    requires ValidRing(r)
    ensures IsEmpty(r) <==> Contents(r) == []
    ensures IsFull(r) <==> |Contents(r)| == QUENE_NUM - 1
    ensures |Contents(r)| < QUENE_NUM
  {
  }

  lemma PutAppends(r: Ring, v: int)
    requires ValidRing(r) && |Contents(r)| < QUENE_NUM - 1
    ensures ValidRing(Put(r, v)) && Contents(Put(r, v)) == Contents(r) + [v]
  {
    PutKeepsValid(r, v);
    var r', cells := Put(r, v), r.cells[r.head := v];
    if r.tail <= r.head {
      if r.head == QUENE_NUM - 1 {
        assert Contents(r') == cells[r.tail..] + cells[..0];
      } else {
        assert Contents(r') == cells[r.tail..r.head + 1];
      }
    } else {
      assert Contents(r') == cells[r.tail..] + cells[..r.head + 1];
    }
  }

  lemma PutKeepsValid(r: Ring, v: int)
    requires ValidRing(r) && |Contents(r)| < QUENE_NUM - 1
    ensures ValidRing(Put(r, v)) && !IsFull(r)
    ensures Put(r, v).head == if r.head == QUENE_NUM - 1 then 0 else r.head + 1
  {
  }

  lemma GetKeepsValid(r: Ring)
    requires ValidRing(r) && Contents(r) != []
    ensures ValidRing(Get(r).0)
  {
    var r' := Get(r).0;
    assert r'.tail == if r.tail == QUENE_NUM - 1 then 0 else r.tail + 1;
  }

  lemma GetTakesFirst(r: Ring)
    requires ValidRing(r) && Contents(r) != []
    ensures ValidRing(Get(r).0) && [Get(r).1] + Contents(Get(r).0) == Contents(r)
  {
    GetKeepsValid(r);
    var (r', v) := Get(r);
    assert v == r.cells[r.tail];
    if r.tail < r.head {
      assert Contents(r') == r.cells[r.tail + 1..r.head];
    } else if r.tail == QUENE_NUM - 1 {
      assert Contents(r') == r.cells[..r.head];
    } else {
      assert Contents(r') == r.cells[r.tail + 1..] + r.cells[..r.head];
    }
  }

  // ---- the processes ----

  /** The producer is about to do the named call for value `i` (pc.c lines 63-75). */
  datatype Producer =
    | WaitEmpty(i: nat) | ProducerMutex(i: nat) | PutValue(i: nat) | LeaveMutex(i: nat) | PostFull(i: nat)
    | ProducerDone

  /** A consumer is about to do the named call (consumer_00.c lines 38-69); `v` is what it took from the ring. */
  datatype Consumer =
    | WaitFull | ConsumerMutex | TestEnd | GetValue
    | PostMutex(v: int) | PostEmpty(v: int)
    | EndPostMutex | EndPostEmpty
    | ExitPostFull | ConsumerDone

  /** `goal` is SHMDATA; `out` records what getQueneValue returned, in order. */
  datatype State = State(
    goal: nat, ring: Ring, ended: bool,
    mutex: nat, full: nat, empty: nat,
    producer: Producer, consumers: seq<Consumer>,
    out: seq<int>)

  function Init(goal: nat, room: nat, consumers: nat): State {
    State(goal, Ring(0, 0, seq(QUENE_NUM, _ => 0)), false, 1, 0, room,
          if goal == 0 then ProducerDone else WaitEmpty(1), seq(consumers, _ => WaitFull), [])
  }

  /** The process can make its next call without blocking; a finished one has no next call. */
  predicate ProducerCan(s: State) {
    match s.producer
    case WaitEmpty(_) => s.empty > 0
    case ProducerMutex(_) => s.mutex > 0
    case PutValue(_) => s.ring.head < |s.ring.cells|
    case ProducerDone => false
    case _ => true
  }

  predicate ConsumerCan(s: State, c: nat)
    requires c < |s.consumers|
  {
    match s.consumers[c]
    case WaitFull => s.full > 0
    case ConsumerMutex => s.mutex > 0
    case GetValue => s.ring.head < |s.ring.cells| && s.ring.tail < |s.ring.cells|
    case ConsumerDone => false
    case _ => true
  }

  function ProducerStep(s: State): State
    requires ProducerCan(s)
  {
    match s.producer
    case WaitEmpty(i) => s.(producer := ProducerMutex(i), empty := s.empty - 1)
    case ProducerMutex(i) => s.(producer := PutValue(i), mutex := s.mutex - 1)
    case PutValue(i) => s.(producer := LeaveMutex(i), ring := Put(s.ring, i))
    case LeaveMutex(i) => s.(producer := PostFull(i), mutex := s.mutex + 1)
    case PostFull(i) => s.(producer := if i < s.goal then WaitEmpty(i + 1) else ProducerDone, full := s.full + 1)
  }

  function ConsumerStep(s: State, c: nat): State
    requires c < |s.consumers| && ConsumerCan(s, c)
  {
    var to := (q: Consumer) => s.consumers[c := q];
    match s.consumers[c]
    case WaitFull => s.(consumers := to(ConsumerMutex), full := s.full - 1)
    case ConsumerMutex => s.(consumers := to(TestEnd), mutex := s.mutex - 1)
    case TestEnd => s.(consumers := to(if s.ended then EndPostMutex else GetValue))
    case GetValue =>
      var (ring, v) := Get(s.ring);
      s.(consumers := to(PostMutex(v)), ring := ring, ended := s.ended || v == s.goal, out := s.out + [v])
    case PostMutex(v) => s.(consumers := to(PostEmpty(v)), mutex := s.mutex + 1)
    case PostEmpty(v) => s.(consumers := to(if v == s.goal then ExitPostFull else WaitFull), empty := s.empty + 1)
    case EndPostMutex => s.(consumers := to(EndPostEmpty), mutex := s.mutex + 1)
    case EndPostEmpty => s.(consumers := to(ExitPostFull), empty := s.empty + 1)
    case ExitPostFull => s.(consumers := to(ConsumerDone), full := s.full + 1)
  }

  /** Actor 0 is the producer, actor c + 1 consumer c. */
  predicate Can(s: State, actor: nat) {
    if actor == 0 then ProducerCan(s) else actor <= |s.consumers| && ConsumerCan(s, actor - 1)
  }

  function Step(s: State, actor: nat): State
    requires Can(s, actor)
  {
    if actor == 0 then ProducerStep(s) else ConsumerStep(s, actor - 1)
  }

  predicate Legal(s: State, sched: seq<nat>)
    decreases |sched|
  {
    sched == [] || (Can(s, sched[0]) && Legal(Step(s, sched[0]), sched[1..]))
  }

  function Run(s: State, sched: seq<nat>): State
    requires Legal(s, sched)
    decreases |sched|
  {
    if sched == [] then s else Run(Step(s, sched[0]), sched[1..])
  }

  // ---- counting consumers ----

  function Sum(f: Consumer -> nat, cs: seq<Consumer>): nat {
    if cs == [] then 0 else f(cs[0]) + Sum(f, cs[1..])
  }

  lemma {:induction false} SumUpdate(f: Consumer -> nat, cs: seq<Consumer>, c: nat, q: Consumer)
    requires c < |cs|
    ensures Sum(f, cs[c := q]) + f(cs[c]) == Sum(f, cs) + f(q)
  {
    if c == 0 {
      assert cs[c := q][1..] == cs[1..];
    } else {
      assert cs[c := q][1..] == cs[1..][c - 1 := q];
      SumUpdate(f, cs[1..], c - 1, q);
    }
  }

  lemma {:induction false} SumAtLeast(f: Consumer -> nat, cs: seq<Consumer>, c: nat)
    requires c < |cs|
    ensures f(cs[c]) <= Sum(f, cs)
  {
    if c > 0 { SumAtLeast(f, cs[1..], c - 1); }
  }

  lemma {:induction false} SumZero(f: Consumer -> nat, cs: seq<Consumer>)
    requires forall c :: 0 <= c < |cs| ==> f(cs[c]) == 0
    ensures Sum(f, cs) == 0
  {
    if cs != [] { SumZero(f, cs[1..]); }
  }

  /** Inside the mutex. */
  function Inside(q: Consumer): nat {
    if q.TestEnd? || q.GetValue? || q.PostMutex? || q.EndPostMutex? then 1 else 0
  }

  /** Took a unit of `full` and no value for it yet. */
  function Claims(q: Consumer): nat {
    if q.ConsumerMutex? || q.TestEnd? || q.GetValue? then 1 else 0
  }

  /** Took a value and has not posted `empty` for it yet. */
  function Takes(q: Consumer): nat {
    if q.PostMutex? || q.PostEmpty? then 1 else 0
  }

  /** Took a unit of `full` and will post one when it exits, if the end flag is up. */
  function Carries(goal: nat): Consumer -> nat {
    (q: Consumer) =>
      if q.WaitFull? || q.ConsumerDone? || ((q.PostMutex? || q.PostEmpty?) && q.v != goal) then 0 else 1
  }

  function ProducerInside(p: Producer): nat {
    if p.PutValue? || p.LeaveMutex? then 1 else 0
  }

  /** Values put so far. */
  function Written(s: State): int {
    match s.producer
    case WaitEmpty(i) => i - 1
    case ProducerMutex(i) => i - 1
    case PutValue(i) => i - 1
    case LeaveMutex(i) => i
    case PostFull(i) => i
    case ProducerDone => s.goal
  }

  /** from + 1, ..., to */
  function UpFrom(from: nat, to: nat): (r: seq<int>)
    requires from <= to
    ensures |r| == to - from
  {
    seq(to - from, k requires 0 <= k => from + 1 + k)
  }

  // ---- the invariant ----

  /** What was read is 1, 2, ..., and the ring holds the rest of what was written. */
  predicate InOrder(s: State) {
    && ValidRing(s.ring)
    && |s.out| <= Written(s) <= s.goal
    && (s.producer.ProducerDone? || 1 <= s.producer.i <= s.goal)
    && s.out == UpFrom(0, |s.out|)
    && Contents(s.ring) == UpFrom(|s.out|, Written(s))
  }

  /** The units of the semaphores, while values remain to be read. */
  predicate OpenTokens(s: State, room: nat)
    requires ValidRing(s.ring)
  {
    && s.full + Sum(Claims, s.consumers) + (if s.producer.LeaveMutex? || s.producer.PostFull? then 1 else 0)
         == |Contents(s.ring)|
    && s.empty + |Contents(s.ring)| + Sum(Takes, s.consumers)
         + (if s.producer.ProducerMutex? || s.producer.PutValue? then 1 else 0) == room
  }

  /** Once the last value is read there is exactly one unit of `full`, free or in the hands of a consumer that will
    * post it on. */
  predicate ClosedTokens(s: State) {
    s.producer.ProducerDone? && s.full + Sum(Carries(s.goal), s.consumers) == 1
  }

  /** Where consumers can be before and after the end flag goes up. */
  predicate FitsFlag(s: State, q: Consumer) {
    if s.ended then !q.GetValue?
    else !q.EndPostMutex? && !q.EndPostEmpty? && !q.ExitPostFull? && !q.ConsumerDone?
         && (q.PostMutex? || q.PostEmpty? ==> q.v != s.goal)
  }

  ghost predicate Inv(s: State, room: nat) {
    && s.goal >= 1 && 1 <= room < QUENE_NUM
    && InOrder(s)
    && s.mutex + Sum(Inside, s.consumers) + ProducerInside(s.producer) == 1
    && (s.ended <==> |s.out| == s.goal)
    && (forall c :: 0 <= c < |s.consumers| ==> FitsFlag(s, s.consumers[c]))
    && (if s.ended then ClosedTokens(s) else OpenTokens(s, room))
  }

  lemma InitInv(goal: nat, room: nat, n: nat)
    requires goal >= 1 && 1 <= room < QUENE_NUM
    ensures Inv(Init(goal, room, n), room)
  {
    var s := Init(goal, room, n);
    SumZero(Inside, s.consumers);
    SumZero(Claims, s.consumers);
    SumZero(Takes, s.consumers);
  }

  lemma ProducerKeepsInv(s: State, room: nat)
    requires Inv(s, room) && ProducerCan(s)
    ensures Inv(ProducerStep(s), room)
  {
    hide Put, Contents, ValidRing, Sum;
    RingTests(s.ring);
    if s.producer.PutValue? {
      PutAppends(s.ring, s.producer.i);
      assert UpFrom(|s.out|, Written(s)) + [s.producer.i] == UpFrom(|s.out|, s.producer.i);
    }
  }

  /** How one consumer's move changes every count. */
  lemma CountsAfter(s: State, c: nat, q: Consumer)
    requires c < |s.consumers|
    ensures Sum(Inside, s.consumers[c := q]) + Inside(s.consumers[c]) == Sum(Inside, s.consumers) + Inside(q)
    ensures Sum(Claims, s.consumers[c := q]) + Claims(s.consumers[c]) == Sum(Claims, s.consumers) + Claims(q)
    ensures Sum(Takes, s.consumers[c := q]) + Takes(s.consumers[c]) == Sum(Takes, s.consumers) + Takes(q)
    ensures Sum(Carries(s.goal), s.consumers[c := q]) + Carries(s.goal)(s.consumers[c])
            == Sum(Carries(s.goal), s.consumers) + Carries(s.goal)(q)
    ensures Inside(s.consumers[c]) <= Sum(Inside, s.consumers) && Claims(s.consumers[c]) <= Sum(Claims, s.consumers)
  {
    SumUpdate(Inside, s.consumers, c, q);
    SumUpdate(Claims, s.consumers, c, q);
    SumUpdate(Takes, s.consumers, c, q);
    SumUpdate(Carries(s.goal), s.consumers, c, q);
    SumAtLeast(Inside, s.consumers, c);
    SumAtLeast(Claims, s.consumers, c);
  }

  lemma ConsumerKeepsFlagFit(s: State, room: nat, c: nat)
    requires Inv(s, room) && c < |s.consumers| && ConsumerCan(s, c) && !s.consumers[c].GetValue?
    ensures forall d :: 0 <= d < |s.consumers| ==> FitsFlag(ConsumerStep(s, c), ConsumerStep(s, c).consumers[d])
  {
    assert FitsFlag(s, s.consumers[c]);
  }

  lemma ConsumerKeepsTokens(s: State, room: nat, c: nat)
    requires Inv(s, room) && c < |s.consumers| && ConsumerCan(s, c) && !s.consumers[c].GetValue?
    ensures var s' := ConsumerStep(s, c);
      && s'.mutex + Sum(Inside, s'.consumers) + ProducerInside(s'.producer) == 1
      && (if s'.ended then ClosedTokens(s') else OpenTokens(s', room))
  {
    assert FitsFlag(s, s.consumers[c]);
    CountsAfter(s, c, ConsumerStep(s, c).consumers[c]);
  }

  lemma ConsumerKeepsInv(s: State, room: nat, c: nat)
    requires Inv(s, room) && c < |s.consumers| && ConsumerCan(s, c) && !s.consumers[c].GetValue?
    ensures Inv(ConsumerStep(s, c), room)
  {
    ConsumerKeepsFlagFit(s, room, c);
    ConsumerKeepsTokens(s, room, c);
  }

  /** A consumer about to take a value finds one, and it is the next in order. */
  lemma GetFindsNext(s: State, room: nat, c: nat)
    requires Inv(s, room) && c < |s.consumers| && s.consumers[c].GetValue?
    ensures !s.ended && Contents(s.ring) != [] && |s.out| < s.goal
    ensures ValidRing(Get(s.ring).0) && Get(s.ring).1 == |s.out| + 1
    ensures Contents(Get(s.ring).0) == UpFrom(|s.out| + 1, Written(s))
  {
    assert FitsFlag(s, s.consumers[c]);
    SumAtLeast(Claims, s.consumers, c);
    assert Contents(s.ring) != [];
    GetTakesFirst(s.ring);
    var (ring, v) := Get(s.ring);
    assert Contents(s.ring) == [v] + Contents(ring);
    assert v == Contents(s.ring)[0] == UpFrom(|s.out|, Written(s))[0];
    assert Contents(ring) == Contents(s.ring)[1..];
  }

  /** Until the last value is read, what will be posted on is what was taken and not used. */
  lemma {:induction false} CarriersAreClaims(s: State, cs: seq<Consumer>)
    requires forall c :: 0 <= c < |cs| ==> FitsFlag(s, cs[c])
    requires !s.ended
    ensures Sum(Carries(s.goal), cs) == Sum(Claims, cs)
    decreases |cs|
  {
    if cs != [] {
      assert FitsFlag(s, cs[0]);
      CarriersAreClaims(s, cs[1..]);
    }
  }

  lemma GettingKeepsInv(s: State, room: nat, c: nat)
    requires Inv(s, room) && c < |s.consumers| && s.consumers[c].GetValue?
    ensures Inv(ConsumerStep(s, c), room)
  {
    GetFindsNext(s, room, c);
    var s' := ConsumerStep(s, c);
    CountsAfter(s, c, s'.consumers[c]);
    assert UpFrom(0, |s.out|) + [|s.out| + 1] == UpFrom(0, |s.out| + 1);
    if s'.ended {
      CarriersAreClaims(s, s.consumers);
      assert |Contents(s.ring)| == 1;
      forall d | 0 <= d < |s'.consumers| ensures FitsFlag(s', s'.consumers[d]) {
        if d != c && s.consumers[d].GetValue? {
          SumAtLeast(Claims, s'.consumers, d);
        }
      }
    }
  }

  lemma {:induction false} RunKeepsInv(s: State, room: nat, sched: seq<nat>)
    requires Inv(s, room) && Legal(s, sched)
    ensures Inv(Run(s, sched), room) && Run(s, sched).goal == s.goal && |Run(s, sched).consumers| == |s.consumers|
    decreases |sched|
  {
    if sched != [] {
      var a := sched[0];
      if a == 0 {
        ProducerKeepsInv(s, room);
      } else if s.consumers[a - 1].GetValue? {
        GettingKeepsInv(s, room, a - 1);
      } else {
        ConsumerKeepsInv(s, room, a - 1);
      }
      RunKeepsInv(Step(s, a), room, sched[1..]);
    }
  }

  // ---- what the program is for ----

  /** Over every interleaving the values come out as 1, 2, 3, ..., each once, never more than `goal` of them, and
    * what is still in the ring is exactly the written and unread rest: nothing is dropped, duplicated or made up. */
  lemma ValuesLeaveInOrder(goal: nat, room: nat, n: nat, sched: seq<nat>)
    requires goal >= 1 && 1 <= room < QUENE_NUM && Legal(Init(goal, room, n), sched)
    ensures var s := Run(Init(goal, room, n), sched);
      && |s.out| <= Written(s) <= goal
      && s.out == UpFrom(0, |s.out|)
      && ValidRing(s.ring) && Contents(s.ring) == UpFrom(|s.out|, Written(s))
  {
    InitInv(goal, room, n);
    RunKeepsInv(Init(goal, room, n), room, sched);
  }

  /** putQueneValue's `Full` branch and getQueneValue's `Empty` branch are never taken. */
  lemma RingNeverRefuses(goal: nat, room: nat, n: nat, sched: seq<nat>, c: nat)
    requires goal >= 1 && 1 <= room < QUENE_NUM && Legal(Init(goal, room, n), sched)
    ensures var s := Run(Init(goal, room, n), sched);
      && (s.producer.PutValue? ==> !IsFull(s.ring))
      && (c < |s.consumers| && s.consumers[c].GetValue? ==> s.ring.head < |s.ring.cells| && !IsEmpty(s.ring))
  {
    InitInv(goal, room, n);
    RunKeepsInv(Init(goal, room, n), room, sched);
    var s := Run(Init(goal, room, n), sched);
    RingTests(s.ring);
    if c < |s.consumers| && s.consumers[c].GetValue? { GetFindsNext(s, room, c); }
  }

  /** Everybody has left the program. */
  predicate Finished(s: State) {
    s.producer.ProducerDone? && forall c :: 0 <= c < |s.consumers| ==> s.consumers[c].ConsumerDone?
  }

  /** A positive sum has a positive summand. */
  lemma {:induction false} SomeSummand(f: Consumer -> nat, cs: seq<Consumer>) returns (c: nat)
    requires Sum(f, cs) > 0
    ensures c < |cs| && f(cs[c]) > 0
    decreases |cs|
  {
    if f(cs[0]) > 0 {
      c := 0;
    } else {
      c := SomeSummand(f, cs[1..]);
      c := c + 1;
    }
  }

  /** Whoever is inside the mutex can move, so a free mutex or a mover exists. */
  lemma MutexMoves(s: State, room: nat) returns (a: nat)
    requires Inv(s, room) && s.mutex == 0
    ensures Can(s, a)
  {
    if ProducerInside(s.producer) > 0 {
      a := 0;
    } else {
      var c := SomeSummand(Inside, s.consumers);
      a := c + 1;
    }
  }

  lemma SomebodyMoves(s: State, room: nat) returns (a: nat)
    requires Inv(s, room) && |s.consumers| >= 1 && !Finished(s)
    ensures Can(s, a)
  {
    if c :| 0 <= c < |s.consumers| && ConsumerCan(s, c) {
      a := c + 1;
    } else if ProducerCan(s) {
      a := 0;
    } else if s.mutex == 0 {
      a := MutexMoves(s, room);
    } else {
      // everybody waits for `full` or `empty`, or is done: the counts say that cannot be
      if s.ended {
        if s.full == 0 {
          var c := SomeSummand(Carries(s.goal), s.consumers);
          assert ConsumerCan(s, c);
        } else {
          var c :| 0 <= c < |s.consumers| && !s.consumers[c].ConsumerDone?;
          assert ConsumerCan(s, c);
        }
        assert false;
      } else {
        assert FitsFlag(s, s.consumers[0]) && !ConsumerCan(s, 0);
        assert s.consumers[0].WaitFull? && s.full == 0;
        assert s.producer.ProducerDone? || (s.producer.WaitEmpty? && s.empty == 0);
        forall c | 0 <= c < |s.consumers| ensures Claims(s.consumers[c]) == 0 && Takes(s.consumers[c]) == 0 {
          assert FitsFlag(s, s.consumers[c]) && !ConsumerCan(s, c);
        }
        SumZero(Claims, s.consumers);
        SumZero(Takes, s.consumers);
        assert false;
      }
    }
  }

  /** No deadlock: until everybody has left, somebody can make its next call. */
  lemma NoDeadlock(goal: nat, room: nat, n: nat, sched: seq<nat>) returns (a: nat)
    requires goal >= 1 && 1 <= room < QUENE_NUM && n >= 1 && Legal(Init(goal, room, n), sched)
    requires !Finished(Run(Init(goal, room, n), sched))
    ensures Can(Run(Init(goal, room, n), sched), a)
  {
    InitInv(goal, room, n);
    RunKeepsInv(Init(goal, room, n), room, sched);
    a := SomebodyMoves(Run(Init(goal, room, n), sched), room);
  }

  // ---- every run ends ----

  /** Calls a process can still make, a unit of `full` standing for the ten calls it can set off. */
  function ProducerWork(goal: nat, p: Producer): nat {
    match p
    case ProducerDone => 0
    case _ =>
      var left := if p.i <= goal then goal - p.i else 0;
      left * 16 + (match p
                   case WaitEmpty(_) => 15 case ProducerMutex(_) => 14 case PutValue(_) => 13
                   case LeaveMutex(_) => 12 case _ => 11)
  }

  function ConsumerWork(q: Consumer): nat {
    match q
    case WaitFull => 12
    case ConsumerMutex => 20
    case TestEnd => 19
    case GetValue => 18
    case PostMutex(_) => 17
    case PostEmpty(_) => 16
    case EndPostMutex => 18
    case EndPostEmpty => 17
    case ExitPostFull => 11
    case ConsumerDone => 0
  }

  function Work(s: State): nat {
    ProducerWork(s.goal, s.producer) + 10 * s.full + Sum(ConsumerWork, s.consumers)
  }

  lemma StepDoesWork(s: State, a: nat, room: nat)
    requires Inv(s, room) && Can(s, a)
    ensures Work(Step(s, a)) < Work(s)
  {
    if a > 0 {
      SumUpdate(ConsumerWork, s.consumers, a - 1, Step(s, a).consumers[a - 1]);
    }
  }

  lemma {:induction false} RunDoesWork(s: State, room: nat, sched: seq<nat>)
    requires Inv(s, room) && Legal(s, sched)
    ensures |sched| + Work(Run(s, sched)) <= Work(s)
    decreases |sched|
  {
    if sched != [] {
      StepDoesWork(s, sched[0], room);
      assert Run(s, sched[..1]) == Step(s, sched[0]) by { assert sched[..1][1..] == []; }
      RunKeepsInv(s, room, sched[..1]);
      RunDoesWork(Step(s, sched[0]), room, sched[1..]);
    }
  }

  /** Every run is finite, and one that cannot go on has read exactly 1..goal and seen every process exit: after the
    * last value, one post of `full` lets all consumers out, one after the other. */
  lemma EveryRunCompletes(goal: nat, room: nat, n: nat, sched: seq<nat>)
    requires goal >= 1 && 1 <= room < QUENE_NUM && n >= 1 && Legal(Init(goal, room, n), sched)
    ensures |sched| <= Work(Init(goal, room, n))
    ensures (forall a: nat :: !Can(Run(Init(goal, room, n), sched), a)) ==>
              Finished(Run(Init(goal, room, n), sched)) && Run(Init(goal, room, n), sched).out == UpFrom(0, goal)
  {
    InitInv(goal, room, n);
    RunDoesWork(Init(goal, room, n), room, sched);
    RunKeepsInv(Init(goal, room, n), room, sched);
    var s := Run(Init(goal, room, n), sched);
    if !Finished(s) {
      var a := SomebodyMoves(s, room);
    } else {
      assert FitsFlag(s, s.consumers[0]);
    }
  }

  /** The numbers test6 runs with. */
  lemma Test6Completes(sched: seq<nat>)
    requires Legal(Init(300, 8, 8), sched) && forall a: nat :: !Can(Run(Init(300, 8, 8), sched), a)
    ensures Run(Init(300, 8, 8), sched).out == UpFrom(0, 300) && Finished(Run(Init(300, 8, 8), sched))
  {
    EveryRunCompletes(300, 8, 8, sched);
  }

  // ---- sem_shm.c's queue operations in place ----

  class SharedQuene {
    var head: nat
    var tail: nat
    const shmad: array<int>

    constructor ()
      ensures fresh(shmad) && Abs() == Ring(0, 0, seq(QUENE_NUM, _ => 0)) && ValidRing(Abs()) && Contents(Abs()) == []
    {
      head, tail := 0, 0;
      shmad := new int[QUENE_NUM](_ => 0);
      new;
      assert shmad[..] == seq(QUENE_NUM, _ => 0);
    }

    ghost function Abs(): Ring
      reads this, shmad
    {
      Ring(head, tail, shmad[..])
    }

    method GetQueneValue() returns (v: int)
      requires ValidRing(Abs())
      modifies this, shmad
      ensures (Abs(), v) == Get(old(Abs())) && ValidRing(Abs())
      ensures if old(Contents(Abs())) == [] then v == -1 && Abs() == old(Abs())
              else old(Contents(Abs())) == [v] + Contents(Abs())
    {
      RingTests(Abs());
      if head == tail && shmad[head] == 0 {
        return -1;
      }
      GetTakesFirst(Abs());
      v := shmad[tail];
      shmad[tail] := 0;
      tail := (tail + 1) % QUENE_NUM;
    }

    method PutQueneValue(v: int)
      requires ValidRing(Abs())
      modifies this, shmad
      ensures Abs() == Put(old(Abs()), v) && ValidRing(Abs())
      ensures if |old(Contents(Abs()))| == QUENE_NUM - 1 then Abs() == old(Abs())
              else Contents(Abs()) == old(Contents(Abs())) + [v]
    {
      RingTests(Abs());
      if (head + 1) % QUENE_NUM == tail {
        return;
      }
      PutAppends(Abs(), v);
      shmad[head] := v;
      head := (head + 1) % QUENE_NUM;
    }
  }
}
