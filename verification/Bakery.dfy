/** The bakery lock of include/linux/lamport.h, as interleaved single loads and stores.
  *
  * A process is identified with the slot of `lamparray` it is registered in.  One step of a process performs at
  * most one access to a cell that another process may write; `Step` is what that process does next, and a run is
  * any sequence of slots, saying who moves.  Line numbers in comments are those of lamport.h.
  */
module Bakery {

  /** Where a process is between two shared accesses, and what its local variables hold there. */
  datatype Pc =
    | Idle                               // outside lamportLock/lamportUnlock
    | Choose                             // about to store choosing = TRUE (45)
    | Reset                              // about to store num = 0 (46)
    | ScanLoad(j: nat)                   // about to load num[j] (51)
    | ScanStore(j: nat, seen: nat)       // loaded num[j]; about to store the larger ticket (51)
    | Bump                               // about to store num + 1 (54)
    | Publish                            // about to store choosing = FALSE (55)
    | AwaitDoor(j: nat)                  // about to test choosing[j] (58)
    | AwaitTurn(j: nat)                  // about to test num[j] (59)
    | Critical                           // holds the lock; about to store num = 0 (80), but not in slot 0

  datatype State = State(choosing: seq<bool>, num: seq<nat>, pc: seq<Pc>)

  predicate WellFormed(s: State) {
    |s.choosing| == |s.num| == |s.pc| && |s.num| >= 2
  }

  function Init(n: nat): State
    requires n >= 2
  {
    State(seq(n, _ => false), seq(n, _ => 0), seq(n, _ => Idle))
  }

  function Larger(a: nat, b: nat): nat {
    if a > b then a else b
  }

  /** Line 59's order on tickets, ties broken by slot. */
  predicate Before(s: State, i: nat, k: nat)
    requires i < |s.num| && k < |s.num|
  {
    s.num[i] < s.num[k] || (s.num[i] == s.num[k] && i < k)
  }

  /** The scan of lines 47-53 continues at `j`, skipping the process's own slot, or is over. */
  function ScanFrom(s: State, i: nat, j: nat): Pc {
    if j >= |s.num| then Bump
    else if j != i then ScanLoad(j)
    else if j + 1 >= |s.num| then Bump
    else ScanLoad(j + 1)
  }

  /** The waiting loop of lines 56-60 continues at `j`, or is over. */
  function AwaitFrom(s: State, j: nat): Pc {
    if j >= |s.num| then Critical else AwaitDoor(j)
  }

  function Step(s: State, i: nat): (s': State)
    requires WellFormed(s) && i < |s.num|
    ensures WellFormed(s') && |s'.num| == |s.num|
  {
    match s.pc[i]
    case Idle => s.(pc := s.pc[i := Choose])
    case Choose => s.(pc := s.pc[i := Reset], choosing := s.choosing[i := true])
    case Reset => s.(pc := s.pc[i := ScanFrom(s, i, 1)], num := s.num[i := 0])
    case ScanLoad(j) =>
      if j < |s.num| then s.(pc := s.pc[i := ScanStore(j, s.num[j])]) else s
    case ScanStore(j, seen) =>
      s.(pc := s.pc[i := ScanFrom(s, i, j + 1)], num := s.num[i := Larger(seen, s.num[i])])
    case Bump => s.(pc := s.pc[i := Publish], num := s.num[i := s.num[i] + 1])
    case Publish => s.(pc := s.pc[i := AwaitDoor(0)], choosing := s.choosing[i := false])
    case AwaitDoor(j) =>
      if j < |s.num| && !s.choosing[j] then s.(pc := s.pc[i := AwaitTurn(j)]) else s
    case AwaitTurn(j) =>
      if j < |s.num| && (s.num[j] == 0 || !Before(s, j, i)) then s.(pc := s.pc[i := AwaitFrom(s, j + 1)]) else s
    case Critical => s.(pc := s.pc[i := Idle], num := if i == 0 then s.num else s.num[i := 0])
  }

  /** `sched` names slots of `s`; with `registered`, only the slots 1.. that lamportLock means to hand out. */
  predicate Schedule(s: State, sched: seq<nat>) {
    forall k :: 0 <= k < |sched| ==> sched[k] < |s.num|
  }

  predicate Registered(sched: seq<nat>) {
    forall k :: 0 <= k < |sched| ==> sched[k] >= 1
  }

  /** The state after the slots in `sched` have moved, in that order. */
  function Run(s: State, sched: seq<nat>): (s': State)
    requires WellFormed(s) && Schedule(s, sched)
    ensures WellFormed(s') && |s'.num| == |s.num|
  {
    if sched == [] then s
    else
      var r := Run(s, sched[..|sched| - 1]);
      Step(r, sched[|sched| - 1])
  }

  // ---- the inductive invariant ----

  predicate Published(p: Pc) {
    p.AwaitDoor? || p.AwaitTurn? || p.Critical?
  }

  predicate Choosing(p: Pc) {
    p.Reset? || p.ScanLoad? || p.ScanStore? || p.Bump? || p.Publish?
  }

  /** A process at `p` has finished its tests of slot `k`. */
  predicate Passed(p: Pc, k: nat) {
    p.Critical? || (p.AwaitDoor? && k < p.j) || (p.AwaitTurn? && k < p.j)
  }

  /** What a process's own cells and local variables look like. */
  predicate OwnCells(s: State, i: nat)
    requires WellFormed(s) && i < |s.num|
  {
    var p := s.pc[i];
    && (s.choosing[i] <==> Choosing(p))
    && (p.Idle? || p.Choose? || p.Reset? ==> s.num[i] == 0)
    && (p.Publish? || Published(p) ==> s.num[i] > 0)
    && (p.ScanLoad? || p.ScanStore? ==> 1 <= p.j < |s.num| && p.j != i)
    && (p.AwaitDoor? || p.AwaitTurn? ==> p.j < |s.num|)
  }

  /** Process `k`, if it is choosing, will end up with a ticket above `i`'s. */
  predicate WillExceed(s: State, k: nat, i: nat)
    requires WellFormed(s) && i < |s.num| && k < |s.num|
  {
    match s.pc[k]
    case ScanLoad(j) => j > i ==> s.num[k] >= s.num[i]
    case ScanStore(j, seen) =>
      && (j > i ==> s.num[k] >= s.num[i])
      && (j == i ==> Larger(seen, s.num[k]) >= s.num[i])
    case Bump => s.num[k] >= s.num[i]
    case Publish => s.num[k] > s.num[i]
    case _ => true
  }

  /** Once `i` has tested `k`, any ticket of `k` comes after `i`'s. */
  predicate Ordered(s: State, i: nat, k: nat)
    requires WellFormed(s) && i < |s.num| && k < |s.num|
  {
    && (Passed(s.pc[i], k) || s.pc[i] == AwaitTurn(k) ==> WillExceed(s, k, i))
    && (Passed(s.pc[i], k) && Published(s.pc[k]) ==> Before(s, i, k))
  }

  predicate Inv(s: State) {
    && WellFormed(s)
    && s.pc[0].Idle?
    && (forall i :: 0 <= i < |s.num| ==> OwnCells(s, i))
    && (forall i, k :: 0 <= i < |s.num| && 0 <= k < |s.num| && i != k ==> Ordered(s, i, k))
  }

  lemma StepKeepsOwnCells(s: State, m: nat, i: nat)
    requires Inv(s) && 1 <= m < |s.num| && i < |s.num|
    ensures OwnCells(Step(s, m), i)
  {
    assert OwnCells(s, i) && OwnCells(s, m);
  }

  /** A step of `i` itself: it may publish, pass a test of `k`, or release. */
  lemma OwnStepKeepsOrder(s: State, i: nat, k: nat)
    requires Inv(s) && 1 <= i < |s.num| && k < |s.num| && i != k
    ensures Ordered(Step(s, i), i, k)
  {
    assert OwnCells(s, i) && OwnCells(s, k) && Ordered(s, i, k);
    var s' := Step(s, i);
    assert s'.pc[k] == s.pc[k] && s'.num[k] == s.num[k];
  }

  /** A step of the tested process `k`: it may read `i`'s ticket, or publish its own. */
  lemma TestedStepKeepsOrder(s: State, i: nat, k: nat)
    requires Inv(s) && i < |s.num| && 1 <= k < |s.num| && i != k
    ensures Ordered(Step(s, k), i, k)
  {
    assert OwnCells(s, i) && OwnCells(s, k) && Ordered(s, i, k);
    var s' := Step(s, k);
    assert s'.pc[i] == s.pc[i] && s'.num[i] == s.num[i];
    if i == 0 { assert s.pc[0].Idle?; }
  }

  lemma StepKeepsOrder(s: State, m: nat, i: nat, k: nat)
    requires Inv(s) && 1 <= m < |s.num| && i < |s.num| && k < |s.num| && i != k
    ensures Ordered(Step(s, m), i, k)
  {
    if m == i {
      OwnStepKeepsOrder(s, i, k);
    } else if m == k {
      TestedStepKeepsOrder(s, i, k);
    } else {
      assert Ordered(s, i, k);
      var s' := Step(s, m);
      assert s'.pc[i] == s.pc[i] && s'.num[i] == s.num[i];
      assert s'.pc[k] == s.pc[k] && s'.num[k] == s.num[k];
    }
  }

  lemma StepKeepsInv(s: State, m: nat)
    requires Inv(s) && 1 <= m < |s.num|
    ensures Inv(Step(s, m))
  {
    var s' := Step(s, m);
    forall i | 0 <= i < |s'.num| ensures OwnCells(s', i) {
      StepKeepsOwnCells(s, m, i);
    }
    forall i, k | 0 <= i < |s'.num| && 0 <= k < |s'.num| && i != k ensures Ordered(s', i, k) {
      StepKeepsOrder(s, m, i, k);
    }
  }

  lemma {:induction false} RunKeepsInv(s: State, sched: seq<nat>)
    requires Inv(s) && Schedule(s, sched) && Registered(sched)
    ensures Inv(Run(s, sched))
  {
    if sched != [] {
      RunKeepsInv(s, sched[..|sched| - 1]);
      StepKeepsInv(Run(s, sched[..|sched| - 1]), sched[|sched| - 1]);
    }
  }

  // ---- mutual exclusion ----

  /** No interleaving of registered processes ever has two of them holding the lock. */
  lemma MutualExclusion(n: nat, sched: seq<nat>, i: nat, k: nat)
    requires n >= 2 && i < n && k < n && i != k
    requires Schedule(Init(n), sched) && Registered(sched)
    ensures !(Run(Init(n), sched).pc[i].Critical? && Run(Init(n), sched).pc[k].Critical?)
  {
    RunKeepsInv(Init(n), sched);
    var s := Run(Init(n), sched);
    assert Ordered(s, i, k) && Ordered(s, k, i);
  }

  // ---- first come, first served ----

  /** `i` has published its ticket and `k`, which started choosing later or has not started, has not got past it. */
  predicate Behind(s: State, i: nat, k: nat)
    requires WellFormed(s) && i < |s.num| && k < |s.num|
  {
    && Published(s.pc[i])
    && WillExceed(s, k, i)
    && (Published(s.pc[k]) ==> s.num[k] > s.num[i] && !s.pc[k].Critical? && s.pc[k].j <= i)
  }

  /** Along `sched` from `s`, `i` does not release the lock. */
  predicate NeverReleases(s: State, sched: seq<nat>, i: nat)
    requires WellFormed(s) && Schedule(s, sched) && i < |s.num|
  {
    forall t :: 0 <= t < |sched| && sched[t] == i ==> !Run(s, sched[..t]).pc[i].Critical?
  }

  lemma StepKeepsBehind(s: State, m: nat, i: nat, k: nat)
    requires Inv(s) && 1 <= m < |s.num| && 1 <= i < |s.num| && k < |s.num| && i != k
    requires Behind(s, i, k) && !(m == i && s.pc[i].Critical?)
    ensures Behind(Step(s, m), i, k)
  {
    assert OwnCells(s, i) && OwnCells(s, k);
  }

  lemma {:induction false} RunKeepsBehind(s: State, sched: seq<nat>, i: nat, k: nat)
    requires Inv(s) && Schedule(s, sched) && Registered(sched)
    requires 1 <= i < |s.num| && k < |s.num| && i != k
    requires Behind(s, i, k) && NeverReleases(s, sched, i)
    ensures Behind(Run(s, sched), i, k)
  {
    if sched != [] {
      var last := |sched| - 1;
      var front := sched[..last];
      forall t | 0 <= t < |front| && front[t] == i ensures !Run(s, front[..t]).pc[i].Critical? {
        assert front[..t] == sched[..t] && sched[t] == i;
      }
      RunKeepsBehind(s, front, i, k);
      RunKeepsInv(s, front);
      StepKeepsBehind(Run(s, front), sched[last], i, k);
    }
  }

  /** If `i` has published its ticket when `k` has not started choosing, `k` cannot hold the lock until `i` has held
    * and released it. */
  lemma FirstComeFirstServed(n: nat, before: seq<nat>, after: seq<nat>, i: nat, k: nat)
    requires n >= 2 && 1 <= i < n && k < n && i != k
    requires Schedule(Init(n), before) && Registered(before)
    requires Published(Run(Init(n), before).pc[i])
    requires Run(Init(n), before).pc[k].Idle? || Run(Init(n), before).pc[k].Choose?
    requires Schedule(Init(n), after) && Registered(after)
    requires NeverReleases(Run(Init(n), before), after, i)
    ensures !Run(Run(Init(n), before), after).pc[k].Critical?
  {
    RunKeepsInv(Init(n), before);
    RunKeepsBehind(Run(Init(n), before), after, i, k);
  }

  // ---- no deadlock ----

  /** Among the published tickets (there is one, `i`) some ticket comes before all others. */
  lemma {:induction false} FirstTicket(s: State, i: nat, bound: nat) returns (m: nat)
    requires Inv(s) && i < |s.num| && bound <= |s.num| && Published(s.pc[i])
    ensures (m == i || m < bound) && Published(s.pc[m])
    ensures forall k :: (k == i || 0 <= k < bound) && k != m && Published(s.pc[k]) ==> Before(s, m, k)
  {
    if bound == 0 {
      m := i;
    } else {
      m := FirstTicket(s, i, bound - 1);
      var k := bound - 1;
      if k != m && Published(s.pc[k]) && Before(s, k, m) { m := k; }
    }
  }

  lemma InitKeeps(n: nat)
    requires n >= 2
    ensures Inv(Init(n))
  {
  }

  lemma InvShape(s: State)
    requires Inv(s)
    ensures WellFormed(s) && s.pc[0].Idle?
  {
  }

  /** In a state that meets the invariant, some busy process can do something. */
  lemma SomebodyMoves(s: State, i: nat) returns (m: nat)
    requires Inv(s) && i < |s.num| && !s.pc[i].Idle?
    ensures 1 <= m < |s.num| && !s.pc[m].Idle? && Step(s, m) != s
  {
    if k :| 0 <= k < |s.num| && !s.pc[k].Idle? && !s.pc[k].AwaitDoor? && !s.pc[k].AwaitTurn? {
      m := k;
      assert OwnCells(s, k);
      assert Step(s, k).pc[k] != s.pc[k];
    } else {
      assert Published(s.pc[i]);
      m := FirstTicket(s, i, |s.num|);
      assert OwnCells(s, m);
      var j := s.pc[m].j;
      assert OwnCells(s, j);
      assert Step(s, m).pc[m] != s.pc[m];
    }
  }

  /** Whenever some process is inside lamportLock or holds the lock, some such process can move. */
  lemma NoDeadlock(n: nat, sched: seq<nat>, i: nat) returns (m: nat)
    requires n >= 2 && i < n && Schedule(Init(n), sched) && Registered(sched)
    requires !Run(Init(n), sched).pc[i].Idle?
    ensures m < n && !Run(Init(n), sched).pc[m].Idle? && Step(Run(Init(n), sched), m) != Run(Init(n), sched)
  {
    hide Inv;
    InitKeeps(n);
    RunKeepsInv(Init(n), sched);
    InvShape(Run(Init(n), sched));
    m := SomebodyMoves(Run(Init(n), sched), i);
  }

  // ---- no starvation ----

  /** How far a process has come on its way through lamportLock. */
  function Rank(p: Pc, n: nat): nat {
    match p
    case Idle => 0
    case Choose => 1
    case Reset => 2
    case ScanLoad(j) => 3 + 2 * j
    case ScanStore(j, _) => 4 + 2 * j
    case Bump => 3 + 2 * n
    case Publish => 4 + 2 * n
    case AwaitDoor(j) => 5 + 2 * n + 2 * j
    case AwaitTurn(j) => 6 + 2 * n + 2 * j
    case Critical => 5 + 4 * n
  }

  function Cycle(n: nat): nat {
    6 + 4 * n
  }

  /** How many steps process `k` can do at most until `i` holds the lock: once round if it is behind `i`, twice if not
    * yet. */
  function Left(s: State, i: nat, k: nat): int
    requires WellFormed(s) && i < |s.num| && k < |s.num|
  {
    var c := Cycle(|s.num|);
    if k == i then c - Rank(s.pc[i], |s.num|)
    else if !Published(s.pc[i]) then 2 * c
    else if Behind(s, i, k) then c - Rank(s.pc[k], |s.num|)
    else 2 * c - Rank(s.pc[k], |s.num|)
  }

  /** A step of `m` that brings `i` nearer: while `i` chooses its ticket only its own do. */
  predicate Brings(s: State, i: nat, m: nat)
    requires WellFormed(s) && i < |s.num| && m < |s.num|
  {
    if Published(s.pc[i]) then Step(s, m) != s else m == i
  }

  /** Somebody's step does, and keeps doing so until somebody takes such a step. */
  lemma SomebodyBrings(s: State, i: nat) returns (m: nat)
    requires Inv(s) && 1 <= i < |s.num| && !s.pc[i].Idle? && !s.pc[i].Critical?
    ensures 1 <= m < |s.num| && !s.pc[m].Idle? && Brings(s, i, m)
  {
    hide Inv;
    InvShape(s);
    m := i;
    if Published(s.pc[i]) { m := SomebodyMoves(s, i); }
  }

  lemma StillBrings(s: State, i: nat, m: nat, x: nat)
    requires Inv(s) && 1 <= i < |s.num| && 1 <= m < |s.num| && 1 <= x < |s.num| && Brings(s, i, m) && !Brings(s, i, x)
    ensures Brings(Step(s, x), i, m)
  {
  }

  lemma OwnStepBrings(s: State, i: nat)
    requires Inv(s) && 1 <= i < |s.num| && !s.pc[i].Idle? && !Published(s.pc[i])
    ensures Step(s, i) != s
  {
    assert OwnCells(s, i);
    assert Step(s, i).pc[i] != s.pc[i];
  }

  function Work(s: State, i: nat, b: nat): int
    requires WellFormed(s) && i < |s.num| && b <= |s.num|
  {
    if b == 0 then 0 else Work(s, i, b - 1) + Left(s, i, b - 1)
  }

  /** A step that does something brings its process on, or lets it go. */
  lemma RankRises(s: State, m: nat)
    requires Inv(s) && 1 <= m < |s.num| && Step(s, m) != s
    ensures Rank(s.pc[m], |s.num|) < Cycle(|s.num|) && Rank(Step(s, m).pc[m], |s.num|) < Cycle(|s.num|)
    ensures if s.pc[m].Critical? then Step(s, m).pc[m].Idle?
            else Rank(Step(s, m).pc[m], |s.num|) > Rank(s.pc[m], |s.num|)
  {
    assert OwnCells(s, m);
  }

  lemma RankBound(s: State, k: nat)
    requires Inv(s) && k < |s.num|
    ensures Rank(s.pc[k], |s.num|) < Cycle(|s.num|)
  {
    assert OwnCells(s, k);
  }

  /** While `i` is waiting, no step of anybody gives anyone more to do, and one that does something leaves less. */
  lemma StepWorks(s: State, m: nat, i: nat, k: nat)
    requires Inv(s) && 1 <= m < |s.num| && 1 <= i < |s.num| && k < |s.num| && !s.pc[i].Idle? && !s.pc[i].Critical?
    ensures !Step(s, m).pc[i].Idle?
    ensures Left(Step(s, m), i, k) <= Left(s, i, k)
    ensures k == m && Brings(s, i, m) ==> Left(Step(s, m), i, k) < Left(s, i, k)
  {
    hide Inv, Behind, Rank;
    InvShape(s);
    StaysBusy(s, m, i);
    if !Published(s.pc[i]) { OwnStepBrings(s, i); }
    var s' := Step(s, m);
    if s' != s {
      RankRises(s, m);
      RankBound(s, k);
      NextRank(s, m, k);
      OthersStay(s, m);
      if k != i && Published(s.pc[i]) {
        if Behind(s, i, k) {
          BehindNotCritical(s, i, k);
          BehindStays(s, m, i, k);
        } else if k == m && s.pc[k].Critical? {
          ReleasedIsBehind(s, i, k);
          CriticalRank(|s.num|);
        }
      }
    }
  }

  lemma OthersStay(s: State, m: nat)
    requires WellFormed(s) && m < |s.num|
    ensures forall k :: 0 <= k < |s.num| && k != m ==> Step(s, m).pc[k] == s.pc[k]
  {
  }

  lemma NextRank(s: State, m: nat, k: nat)
    requires Inv(s) && 1 <= m < |s.num| && k < |s.num|
    ensures 0 <= Rank(Step(s, m).pc[k], |s.num|) < Cycle(|s.num|)
  {
    hide Inv, Rank;
    InvShape(s);
    StepKeepsInv(s, m);
    RankBound(Step(s, m), k);
  }

  lemma CriticalRank(n: nat)
    ensures Rank(Critical, n) == Cycle(n) - 1 && Rank(Idle, n) == 0
  {
  }

  lemma StaysBusy(s: State, m: nat, i: nat)
    requires Inv(s) && 1 <= m < |s.num| && i < |s.num| && !s.pc[i].Idle? && !s.pc[i].Critical?
    ensures !Step(s, m).pc[i].Idle? && (Published(s.pc[i]) ==> Published(Step(s, m).pc[i]))
  {
    assert OwnCells(s, i);
  }

  lemma BehindNotCritical(s: State, i: nat, k: nat)
    requires WellFormed(s) && i < |s.num| && k < |s.num| && Behind(s, i, k)
    ensures !s.pc[k].Critical?
  {
  }

  lemma BehindStays(s: State, m: nat, i: nat, k: nat)
    requires Inv(s) && 1 <= m < |s.num| && 1 <= i < |s.num| && k < |s.num| && i != k
    requires Behind(s, i, k) && !s.pc[i].Critical?
    ensures Behind(Step(s, m), i, k)
  {
    StepKeepsBehind(s, m, i, k);
  }

  lemma ReleasedIsBehind(s: State, i: nat, k: nat)
    requires WellFormed(s) && i < |s.num| && k < |s.num| && i != k && Published(s.pc[i]) && s.pc[k].Critical?
    ensures Behind(Step(s, k), i, k)
  {
  }

  lemma {:induction false} LessWork(s: State, m: nat, i: nat, b: nat)
    requires Inv(s) && 1 <= m < |s.num| && 1 <= i < |s.num| && b <= |s.num| && !s.pc[i].Idle? && !s.pc[i].Critical?
    ensures Work(Step(s, m), i, b) <= Work(s, i, b)
    ensures m < b && Brings(s, i, m) ==> Work(Step(s, m), i, b) < Work(s, i, b)
  {
    hide Inv, Left;
    InvShape(s);
    if b > 0 {
      LessWork(s, m, i, b - 1);
      StepWorks(s, m, i, b - 1);
    }
  }

  lemma {:induction false} WorkBound(s: State, i: nat, b: nat)
    requires Inv(s) && i < |s.num| && b <= |s.num|
    ensures 0 <= Work(s, i, b) <= b * (2 * Cycle(|s.num|)) && (i < b ==> Work(s, i, b) > 0)
  {
    hide Inv, Rank, Behind, Cycle;
    InvShape(s);
    if b > 0 {
      WorkBound(s, i, b - 1);
      RankBound(s, b - 1);
      assert b * (2 * Cycle(|s.num|)) == (b - 1) * (2 * Cycle(|s.num|)) + 2 * Cycle(|s.num|);
    }
  }

  lemma {:induction false} RunOn(s: State, a: seq<nat>, b: seq<nat>)
    requires WellFormed(s) && Schedule(s, a + b)
    ensures Schedule(s, a) && Schedule(Run(s, a), b) && Run(s, a + b) == Run(Run(s, a), b)
    decreases |b|
  {
    hide Step;
    assert forall k :: 0 <= k < |a| ==> (a + b)[k] == a[k];
    assert forall k :: 0 <= k < |b| ==> (a + b)[|a| + k] == b[k];
    if b == [] {
      assert a + b == a;
    } else {
      var n := |b| - 1;
      assert (a + b)[..|a| + n] == a + b[..n];
      RunOn(s, a, b[..n]);
    }
  }

  /** Somewhere along `sched`, process `i` holds the lock. */
  ghost predicate Enters(s: State, sched: seq<nat>, i: nat)
    requires WellFormed(s) && Schedule(s, sched) && i < |s.num|
  {
    exists t: nat :: t <= |sched| && Run(s, sched[..t]).pc[i].Critical?
  }

  lemma EntersAfter(s: State, a: seq<nat>, b: seq<nat>, i: nat)
    requires WellFormed(s) && Schedule(s, a + b) && i < |s.num|
    ensures Schedule(s, a) && Schedule(Run(s, a), b)
    ensures Enters(s, a, i) || Enters(Run(s, a), b, i) ==> Enters(s, a + b, i)
  {
    hide Run;
    RunOn(s, a, b);
    if Enters(s, a, i) {
      var t: nat :| t <= |a| && Run(s, a[..t]).pc[i].Critical?;
      assert (a + b)[..t] == a[..t];
    } else if Enters(Run(s, a), b, i) {
      var t: nat :| t <= |b| && Run(Run(s, a), b[..t]).pc[i].Critical?;
      assert (a + b)[..|a| + t] == a + b[..t];
      RunOn(s, a, b[..t]);
    }
  }

  /** Along any schedule in which `m`, which could move at the start, does move, `i` enters or there is less left to
    * do. */
  lemma {:induction false} Proceeds(s: State, sched: seq<nat>, i: nat, m: nat)
    requires Inv(s) && Schedule(s, sched) && Registered(sched) && 1 <= i < |s.num| && 1 <= m < |s.num| && !s.pc[i].Idle?
    ensures Enters(s, sched, i) ||
            (var s' := Run(s, sched);
             && Inv(s') && !s'.pc[i].Idle? && Work(s', i, |s.num|) <= Work(s, i, |s.num|)
             && (m in sched && Brings(s, i, m) ==> Work(s', i, |s.num|) < Work(s, i, |s.num|)))
    decreases |sched|
  {
    hide Inv, Work, Step, Brings;
    InvShape(s);
    if s.pc[i].Critical? {
      AlreadyIn(s, sched, i);
    } else if sched != [] {
      var x, rest := sched[0], sched[1..];
      assert sched == [x] + rest && Run(s, [x]) == Step(s, x);
      EntersAfter(s, [x], rest, i);
      RunOn(s, [x], rest);
      StepKeepsInv(s, x);
      StaysBusy(s, x, i);
      LessWork(s, x, i, |s.num|);
      if Brings(s, i, m) && !Brings(s, i, x) { StillBrings(s, i, m, x); }
      Proceeds(Step(s, x), rest, i, m);
    }
  }

  /** Rounds one after the other. */
  function Flat(rounds: seq<seq<nat>>): seq<nat> {
    if rounds == [] then [] else rounds[0] + Flat(rounds[1..])
  }

  /** In each round every process that has begun to lock when it starts moves at least once.  They move in any order and
    * as often as they like, and so do the others, which may as well stay outside. */
  ghost predicate Rounds(s: State, rounds: seq<seq<nat>>)
    requires WellFormed(s)
    decreases |rounds|
  {
    rounds == [] ||
    (&& Slots(rounds[0], |s.num|)
     && (forall m: nat :: 1 <= m < |s.num| && !s.pc[m].Idle? ==> m in rounds[0])
     && Rounds(Run(s, rounds[0]), rounds[1..]))
  }

  predicate Slots(round: seq<nat>, n: nat) {
    forall k :: 0 <= k < |round| ==> 1 <= round[k] < n
  }

  lemma {:induction false} RoundsAreSchedule(s: State, rounds: seq<seq<nat>>)
    requires WellFormed(s) && Rounds(s, rounds)
    ensures Schedule(s, Flat(rounds)) && Registered(Flat(rounds))
    decreases |rounds|
  {
    hide Run;
    if rounds != [] { RoundsAreSchedule(Run(s, rounds[0]), rounds[1..]); }
  }

  lemma AlreadyIn(s: State, sched: seq<nat>, i: nat)
    requires WellFormed(s) && Schedule(s, sched) && i < |s.num| && s.pc[i].Critical?
    ensures Enters(s, sched, i)
  {
    assert sched[..0] == [] && Run(s, sched[..0]) == s;
  }

  lemma {:induction false} EntersInTime(s: State, rounds: seq<seq<nat>>, i: nat)
    requires Inv(s) && Rounds(s, rounds) && 1 <= i < |s.num| && !s.pc[i].Idle? && |rounds| >= Work(s, i, |s.num|)
    ensures Schedule(s, Flat(rounds)) && Enters(s, Flat(rounds), i)
    decreases |rounds|
  {
    hide Inv, Work, Step, Enters, Run, Brings;
    InvShape(s);
    RoundsAreSchedule(s, rounds);
    WorkBound(s, i, |s.num|);
    var round, rest := rounds[0], rounds[1..];
    if s.pc[i].Critical? {
      AlreadyIn(s, Flat(rounds), i);
      return;
    }
    var m := SomebodyBrings(s, i);
    EntersAfter(s, round, Flat(rest), i);
    Proceeds(s, round, i, m);
    if !Enters(s, round, i) {
      EntersInTime(Run(s, round), rest, i);
    }
  }

  /** Nobody starves as long as whoever has begun to lock gets to move: such a process holds the lock within a number of
    * rounds that depends on the number of slots only, whether the others stay outside or come again and again. */
  lemma NoStarvation(n: nat, before: seq<nat>, rounds: seq<seq<nat>>, i: nat)
    requires n >= 2 && 1 <= i < n && Schedule(Init(n), before) && Registered(before)
    requires !Run(Init(n), before).pc[i].Idle? && Rounds(Run(Init(n), before), rounds)
    requires |rounds| >= n * (2 * Cycle(n))
    ensures Schedule(Run(Init(n), before), Flat(rounds)) && Enters(Run(Init(n), before), Flat(rounds), i)
  {
    hide Inv, Work, Enters, Cycle, Run, Rounds, Flat;
    InitKeeps(n);
    RunKeepsInv(Init(n), before);
    var s := Run(Init(n), before);
    InvShape(s);
    WorkBound(s, i, n);
    EntersInTime(s, rounds, i);
  }

  // ---- registration ----

  predicate Holds(pids: seq<nat>, pid: nat) {
    exists i :: 1 <= i < |pids| && pids[i] == pid
  }

  /** Lines 24-44, with nobody else registering meanwhile: the first slot `pid` already has, or else the last free one,
    * which becomes its own; slot 0 when the table has neither.  Slot 0 is then shared by every later process, and
    * MutualExclusion no longer applies. */
  method Register(pids: array<nat>, pid: nat) returns (slot: nat)
    requires pids.Length >= 1 && pid != 0
    modifies pids
    ensures slot < pids.Length && pids[..] == old(pids[..])[slot := pid]
    ensures slot != 0 <==> old(Holds(pids[..], pid) || Holds(pids[..], 0))
    ensures slot != 0 ==> old(pids[slot]) == if old(Holds(pids[..], pid)) then pid else 0
    ensures old(Holds(pids[..], pid)) ==> forall k :: 1 <= k < slot ==> old(pids[k]) != pid
    ensures slot != 0 && !old(Holds(pids[..], pid)) ==> forall k :: slot < k < pids.Length ==> old(pids[k]) != 0
  {
    ghost var was := pids[..];
    var i, free := 1, 0;
    while i < pids.Length && pids[i] != pid
      invariant 1 <= i <= pids.Length && free < i
      invariant forall k :: 1 <= k < i ==> pids[k] != pid
      invariant forall k :: free < k < i ==> pids[k] != 0
      invariant free != 0 ==> pids[free] == 0
    {
      if pids[i] == 0 {
        free := i;
      }
      i := i + 1;
    }
    if i < pids.Length {
      slot := i;
      assert was[slot] == pid;
      assert was[slot := pid] == was;
    } else {
      slot := free;
      assert free != 0 ==> was[free] == 0;
      pids[slot] := pid;
    }
  }

  /** No two slots from 1 on belong to the same process. */
  predicate DistinctSlots(pids: seq<nat>) {
    forall i, k :: 1 <= i < k < |pids| && pids[i] != 0 ==> pids[i] != pids[k]
  }

  /** Processes that registered one after the other and found a place have slots of their own. */
  lemma RegistrationKeepsSlotsDistinct(pids: seq<nat>, pid: nat, slot: nat)
    requires 1 <= slot < |pids| && pid != 0 && DistinctSlots(pids)
    requires pids[slot] == if Holds(pids, pid) then pid else 0
    ensures DistinctSlots(pids[slot := pid])
  {
    if Holds(pids, pid) {
      assert pids[slot := pid] == pids;
    } else {
      var after := pids[slot := pid];
      forall i, k | 1 <= i < k < |after| && after[i] != 0 ensures after[i] != after[k] {
        assert i != slot ==> after[i] == pids[i];
        assert k != slot ==> after[k] == pids[k];
      }
    }
  }

  // ---- any number of processes registering at once ----

  /** One process in lines 24-44: looking at slot `i` with `free` found so far, about to take `slot`, or registered. */
  datatype RegPc = Look(i: nat, free: nat) | Take(slot: nat) | Has(slot: nat)

  datatype RegState = RegState(pids: seq<nat>, pc: seq<RegPc>)

  /** Process `x` goes on by one load or store; its pid is `x + p`. */
  function RegStep(s: RegState, p: nat, x: nat): (s': RegState)
    requires x < |s.pc|
    ensures |s'.pc| == |s.pc| && |s'.pids| == |s.pids|
  {
    match s.pc[x]
    case Look(i, free) =>
      if i >= |s.pids| then s.(pc := s.pc[x := Take(free)])
      else if s.pids[i] == x + p then s.(pc := s.pc[x := Has(i)])
      else s.(pc := s.pc[x := Look(i + 1, if s.pids[i] == 0 then i else free)])
    case Take(slot) =>
      if slot < |s.pids| then RegState(s.pids[slot := x + p], s.pc[x := Has(slot)]) else s
    case Has(_) => s
  }

  /** `n` processes start looking at the same table. */
  function RegRun(pids: seq<nat>, n: nat, p: nat, sched: seq<nat>): (s: RegState)
    requires forall k :: 0 <= k < |sched| ==> sched[k] < n
    ensures |s.pc| == n && |s.pids| == |pids|
  {
    if sched == [] then RegState(pids, seq(n, _ => Look(1, 0)))
    else RegStep(RegRun(pids, n, p, sched[..|sched| - 1]), p, sched[|sched| - 1])
  }

  /** Process `x` has not stored its pid and is going to do so in slot `g`: that is the free one it found last, and
    * neither a free one nor its own is left ahead. */
  predicate BoundFor(s: RegState, p: nat, x: nat, g: nat)
    requires x < |s.pc|
  {
    match s.pc[x]
    case Look(i, free) => free == g && forall j :: i <= j < |s.pids| ==> s.pids[j] != 0 && s.pids[j] != x + p
    case Take(slot) => slot == g
    case Has(_) => false
  }

  predicate BoundOrHas(s: RegState, p: nat, x: nat, g: nat)
    requires x < |s.pc|
  {
    BoundFor(s, p, x, g) || s.pc[x] == Has(g)
  }

  /** `g`, found among the slots before `i`, was free in the table `was`, and those looked at since are taken. */
  predicate LastFound(was: seq<nat>, pids: seq<nat>, i: nat, g: nat) {
    && g < |was| == |pids| && i <= |pids| && (g > 0 ==> was[g] == 0)
    && forall j :: g < j < i ==> pids[j] != 0
  }

  /** What holds of process `x` after any run from the table `was`. */
  predicate OnTheWay(was: seq<nat>, s: RegState, p: nat, x: nat)
    requires x < |s.pc| && |s.pids| == |was|
  {
    match s.pc[x]
    case Look(i, free) =>
      free < i && LastFound(was, s.pids, i, free) && forall j :: 1 <= j < i ==> was[j] != x + p
    case Take(g) => LastFound(was, s.pids, |was|, g) && forall j :: 1 <= j < |was| ==> was[j] != x + p
    case Has(g) =>
      g < |was| &&
      ((g > 0 && was[g] == x + p)
       || (LastFound(was, s.pids, |was|, g) && (g > 0 ==> s.pids[g] != 0)
           && forall j :: 1 <= j < |was| ==> was[j] != x + p))
  }

  /** Slots that were taken stay as they are, and nobody's pid is stored before it registers. */
  predicate TableKept(was: seq<nat>, s: RegState, p: nat)
    requires |s.pids| == |was|
  {
    && (forall j :: 1 <= j < |was| && was[j] != 0 ==> s.pids[j] == was[j])
    && forall x: nat, j :: x < |s.pc| && 1 <= j < |was| && !s.pc[x].Has? && s.pids[j] == x + p ==> was[j] == x + p
  }

  predicate RegInv(was: seq<nat>, s: RegState, p: nat) {
    |s.pids| == |was| && TableKept(was, s, p) && forall x: nat :: x < |s.pc| ==> OnTheWay(was, s, p, x)
  }

  /** The loads and stores a process still has before it. */
  function RegLeft(pc: RegPc, size: nat): nat {
    match pc
    case Look(i, _) => 2 + if i < size then size - i else 0
    case Take(_) => 1
    case Has(_) => 0
  }

  /** Each of its steps brings a process nearer to its slot, and one that is there stays. */
  lemma RegStepMoves(was: seq<nat>, s: RegState, p: nat, x: nat)
    requires RegInv(was, s, p) && x < |s.pc|
    ensures s.pc[x].Has? ==> RegStep(s, p, x) == s
    ensures !s.pc[x].Has? ==> RegLeft(RegStep(s, p, x).pc[x], |was|) < RegLeft(s.pc[x], |was|)
    ensures forall y :: 0 <= y < |s.pc| && y != x ==> RegStep(s, p, x).pc[y] == s.pc[y]
  {
    assert OnTheWay(was, s, p, x);
  }

  lemma StepKeepsTable(was: seq<nat>, s: RegState, p: nat, x: nat)
    requires RegInv(was, s, p) && x < |s.pc|
    ensures TableKept(was, RegStep(s, p, x), p)
  {
    assert OnTheWay(was, s, p, x);
  }

  lemma StepOnTheWay(was: seq<nat>, s: RegState, p: nat, x: nat, y: nat)
    requires RegInv(was, s, p) && x < |s.pc| && y < |s.pc| && p > 0
    ensures OnTheWay(was, RegStep(s, p, x), p, y)
  {
    assert OnTheWay(was, s, p, x) && OnTheWay(was, s, p, y);
    assert y != x ==> RegStep(s, p, x).pc[y] == s.pc[y];
  }

  lemma RegStepKeepsInv(was: seq<nat>, s: RegState, p: nat, x: nat)
    requires RegInv(was, s, p) && x < |s.pc| && p > 0
    ensures RegInv(was, RegStep(s, p, x), p)
  {
    hide RegStep, TableKept, OnTheWay;
    StepKeepsTable(was, s, p, x);
    forall y: nat | y < |s.pc| ensures OnTheWay(was, RegStep(s, p, x), p, y) {
      StepOnTheWay(was, s, p, x, y);
    }
  }

  lemma BoundStays(was: seq<nat>, s: RegState, p: nat, x: nat, y: nat, g: nat)
    requires RegInv(was, s, p) && x < |s.pc| && y < |s.pc| && p > 0 && BoundOrHas(s, p, y, g)
    ensures BoundOrHas(RegStep(s, p, x), p, y, g)
  {
    assert OnTheWay(was, s, p, x) && OnTheWay(was, s, p, y);
  }

  /** What a slot somebody is bound for or has held at the start. */
  lemma BoundWas(was: seq<nat>, s: RegState, p: nat, x: nat, g: nat)
    requires RegInv(was, s, p) && x < |s.pc| && BoundOrHas(s, p, x, g)
    ensures g < |was| && (g > 0 ==> was[g] == 0 || (s.pc[x] == Has(g) && was[g] == x + p))
  {
    assert OnTheWay(was, s, p, x);
  }

  /** Nobody becomes bound for a slot somebody has already. */
  lemma NotBoundLate(was: seq<nat>, s: RegState, p: nat, x: nat, y: nat, z: nat, g: nat)
    requires RegInv(was, s, p) && x < |s.pc| && y < |s.pc| && z < |s.pc| && x != y && p > 0
    requires RegStep(s, p, z).pc[x] == Has(g) && BoundOrHas(RegStep(s, p, z), p, y, g)
    ensures BoundOrHas(s, p, x, g) && BoundOrHas(s, p, y, g)
  {
    var s' := RegStep(s, p, z);
    RegStepKeepsInv(was, s, p, z);
    BoundWas(was, s', p, x, g);
    BoundWas(was, s', p, y, g);
    assert OnTheWay(was, s, p, x) && OnTheWay(was, s, p, y) && OnTheWay(was, s, p, z);
  }

  /** Two processes are bound for the same slot at some moment of the run. */
  ghost predicate Meet(pids: seq<nat>, n: nat, p: nat, sched: seq<nat>, x: nat, y: nat, g: nat)
    requires x < n && y < n && forall k :: 0 <= k < |sched| ==> sched[k] < n
  {
    exists t: nat :: t <= |sched| && BothBound(RegRun(pids, n, p, sched[..t]), p, x, y, g)
  }

  predicate BothBound(s: RegState, p: nat, x: nat, y: nat, g: nat)
    requires x < |s.pc| && y < |s.pc|
  {
    BoundFor(s, p, x, g) && BoundFor(s, p, y, g)
  }

  lemma StepMeets(was: seq<nat>, s: RegState, p: nat, z: nat, x: nat, y: nat, g: nat)
    requires RegInv(was, s, p) && x < |s.pc| && y < |s.pc| && z < |s.pc| && x != y && p > 0
    ensures var s' := RegStep(s, p, z);
      BoundOrHas(s', p, x, g) && BoundOrHas(s', p, y, g) <==>
        (BoundOrHas(s, p, x, g) && BoundOrHas(s, p, y, g)) || BothBound(s', p, x, y, g)
  {
    hide RegInv, RegStep, BoundFor;
    var s' := RegStep(s, p, z);
    if BoundOrHas(s, p, x, g) && BoundOrHas(s, p, y, g) {
      BoundStays(was, s, p, z, x, g);
      BoundStays(was, s, p, z, y, g);
    } else if BoundOrHas(s', p, x, g) && BoundOrHas(s', p, y, g) && !BothBound(s', p, x, y, g) {
      if s'.pc[x] == Has(g) { NotBoundLate(was, s, p, x, y, z, g); }
      if s'.pc[y] == Has(g) { NotBoundLate(was, s, p, y, x, z, g); }
    }
  }

  lemma {:induction false} MetOnTheWay(pids: seq<nat>, n: nat, p: nat, sched: seq<nat>, x: nat, y: nat, g: nat)
    requires pids != [] && p > 0 && x < n && y < n && x != y && forall k :: 0 <= k < |sched| ==> sched[k] < n
    ensures var s := RegRun(pids, n, p, sched);
      RegInv(pids, s, p) && (BoundOrHas(s, p, x, g) && BoundOrHas(s, p, y, g) <==> Meet(pids, n, p, sched, x, y, g))
  {
    hide RegStep, BoundFor;
    if sched == [] {
      assert sched[..0] == sched;
    } else {
      var m := |sched| - 1;
      var s := RegRun(pids, n, p, sched[..m]);
      MetOnTheWay(pids, n, p, sched[..m], x, y, g);
      RegStepKeepsInv(pids, s, p, sched[m]);
      StepMeets(pids, s, p, sched[m], x, y, g);
      MetLater(pids, n, p, sched, x, y, g);
    }
  }

  lemma MetEarlier(pids: seq<nat>, n: nat, p: nat, sched: seq<nat>, m: nat, x: nat, y: nat, g: nat)
    requires x < n && y < n && m <= |sched| && forall k :: 0 <= k < |sched| ==> sched[k] < n
    ensures Meet(pids, n, p, sched[..m], x, y, g) ==> Meet(pids, n, p, sched, x, y, g)
  {
    hide RegRun, BothBound;
    if Meet(pids, n, p, sched[..m], x, y, g) {
      var t: nat :| t <= m && BothBound(RegRun(pids, n, p, sched[..m][..t]), p, x, y, g);
      assert sched[..m][..t] == sched[..t];
    }
  }

  lemma MetByNow(pids: seq<nat>, n: nat, p: nat, sched: seq<nat>, m: nat, x: nat, y: nat, g: nat)
    requires x < n && y < n && m + 1 == |sched| && forall k :: 0 <= k < |sched| ==> sched[k] < n
    ensures Meet(pids, n, p, sched, x, y, g) ==>
              Meet(pids, n, p, sched[..m], x, y, g) || BothBound(RegRun(pids, n, p, sched), p, x, y, g)
  {
    hide RegRun, BothBound;
    if Meet(pids, n, p, sched, x, y, g) {
      var t: nat :| t <= |sched| && BothBound(RegRun(pids, n, p, sched[..t]), p, x, y, g);
      if t <= m {
        assert sched[..m][..t] == sched[..t];
      } else {
        assert sched[..t] == sched;
      }
    }
  }

  lemma MetLater(pids: seq<nat>, n: nat, p: nat, sched: seq<nat>, x: nat, y: nat, g: nat)
    requires x < n && y < n && sched != [] && forall k :: 0 <= k < |sched| ==> sched[k] < n
    ensures Meet(pids, n, p, sched, x, y, g) <==>
              Meet(pids, n, p, sched[..|sched| - 1], x, y, g) || BothBound(RegRun(pids, n, p, sched), p, x, y, g)
  {
    hide RegRun, BothBound;
    MetEarlier(pids, n, p, sched, |sched| - 1, x, y, g);
    MetByNow(pids, n, p, sched, |sched| - 1, x, y, g);
    assert sched[..|sched|] == sched;
  }

  /** Whatever the table holds and however many processes register at once, in whatever order their loads and stores
    * come: two of them get the same slot exactly if at some moment both are going to take it. */
  lemma SameSlotExactly(pids: seq<nat>, n: nat, p: nat, sched: seq<nat>, x: nat, y: nat)
    requires pids != [] && p > 0 && x < n && y < n && x != y && forall k :: 0 <= k < |sched| ==> sched[k] < n
    requires RegRun(pids, n, p, sched).pc[x].Has? && RegRun(pids, n, p, sched).pc[y].Has?
    ensures RegRun(pids, n, p, sched).pc[x].slot == RegRun(pids, n, p, sched).pc[y].slot <==>
              exists g: nat :: Meet(pids, n, p, sched, x, y, g)
  {
    hide Meet, RegRun;
    var s := RegRun(pids, n, p, sched);
    MetOnTheWay(pids, n, p, sched, x, y, s.pc[x].slot);
    if g: nat :| Meet(pids, n, p, sched, x, y, g) { MetOnTheWay(pids, n, p, sched, x, y, g); }
  }

  // ---- what happens when the table is full ----

  /** Only slots in `allowed` move. */
  predicate Within(sched: seq<nat>, allowed: set<nat>) {
    forall t :: 0 <= t < |sched| ==> sched[t] in allowed
  }

  ghost predicate Excludes(s: State)
    requires WellFormed(s)
  {
    forall i, k :: 0 <= i < k < |s.num| ==> !(s.pc[i].Critical? && s.pc[k].Critical?)
  }

  /** Some run of `n` slots in which only 0 and `k` move ends in `s`. */
  ghost predicate Reachable(n: nat, k: nat, s: State) {
    WellFormed(s) && |s.num| == n &&
    exists sched: seq<nat> :: Schedule(Init(n), sched) && Within(sched, {0, k}) && Run(Init(n), sched) == s
  }

  lemma Move(n: nat, k: nat, s: State, m: nat)
    requires Reachable(n, k, s) && k < n && (m == 0 || m == k)
    ensures Reachable(n, k, Step(s, m))
  {
    var sched: seq<nat> :| Schedule(Init(n), sched) && Within(sched, {0, k}) && Run(Init(n), sched) == s;
    var more := sched + [m];
    assert more[..|more| - 1] == sched && Within(more, {0, k});
    assert Run(Init(n), more) == Step(s, m);
  }

  /** A process none of the others is ahead of gets through the waiting loop. */
  lemma {:induction false} Enter(n: nat, k: nat, s: State, i: nat, j: nat)
    requires Reachable(n, k, s) && 1 <= k < n && (i == 0 || i == k) && j <= n && s.pc[i] == AwaitFrom(s, j)
    requires forall x: nat :: x < n ==> !s.choosing[x] && (s.num[x] == 0 || !Before(s, x, i))
    ensures Reachable(n, k, s.(pc := s.pc[i := Critical]))
    decreases n - j
  {
    hide Reachable;
    assert WellFormed(s) && |s.num| == n by { Shape(n, k, s); }
    if j < n {
      Move(n, k, s, i);
      var s1 := s.(pc := s.pc[i := AwaitTurn(j)]);
      assert Step(s, i) == s1;
      Move(n, k, s1, i);
      var s2 := s.(pc := s.pc[i := AwaitFrom(s, j + 1)]);
      assert Step(s1, i) == s2;
      Enter(n, k, s2, i, j + 1);
      assert s2.pc[i := Critical] == s.pc[i := Critical];
    } else {
      assert s.pc[i := Critical] == s.pc;
    }
  }

  lemma Shape(n: nat, k: nat, s: State)
    requires Reachable(n, k, s)
    ensures WellFormed(s) && |s.num| == n
  {
  }

  /** What the scan of process `i`, from slot `j` on, makes of its own ticket. */
  function Scanned(num: seq<nat>, i: nat, j: nat, own: nat): nat
    decreases |num| - j
  {
    if j >= |num| then own else Scanned(num, i, j + 1, if j == i then own else Larger(num[j], own))
  }

  lemma {:induction false} Scan(n: nat, k: nat, s: State, i: nat, j: nat)
    requires Reachable(n, k, s) && 1 <= k < n && (i == 0 || i == k) && 1 <= j <= n && s.pc[i] == ScanFrom(s, i, j)
    ensures Reachable(n, k, s.(pc := s.pc[i := Bump], num := s.num[i := Scanned(s.num, i, j, s.num[i])]))
    decreases n - j
  {
    hide Reachable;
    Shape(n, k, s);
    if j >= n {
      assert s.pc[i := Bump] == s.pc && s.num[i := s.num[i]] == s.num;
    } else if j == i {
      Scan(n, k, s, i, j + 1);
    } else {
      Move(n, k, s, i);
      var s1 := s.(pc := s.pc[i := ScanStore(j, s.num[j])]);
      assert Step(s, i) == s1;
      Move(n, k, s1, i);
      var own := Larger(s.num[j], s.num[i]);
      var s2 := s.(pc := s.pc[i := ScanFrom(s, i, j + 1)], num := s.num[i := own]);
      assert Step(s1, i) == s2;
      Scan(n, k, s2, i, j + 1);
      ScanOthers(s.num, i, j + 1, own, own);
      assert s2.pc[i := Bump] == s.pc[i := Bump];
      assert s2.num[i := Scanned(s2.num, i, j + 1, own)] == s.num[i := Scanned(s.num, i, j, s.num[i])];
    }
  }

  /** The scan does not read the scanner's own cell. */
  lemma {:induction false} ScanOthers(num: seq<nat>, i: nat, j: nat, own: nat, cell: nat)
    requires i < |num|
    ensures Scanned(num[i := cell], i, j, own) == Scanned(num, i, j, own)
    decreases |num| - j
  {
    if j < |num| { ScanOthers(num, i, j + 1, if j == i then own else Larger(num[j], own), cell); }
  }

  /** An idle process draws a ticket: one more than the scan found. */
  lemma Draw(n: nat, k: nat, s: State, i: nat)
    requires Reachable(n, k, s) && 1 <= k < n && (i == 0 || i == k) && s.pc[i] == Idle && s.num[i] == 0
             && !s.choosing[i]
    ensures Reachable(n, k, s.(pc := s.pc[i := AwaitDoor(0)], num := s.num[i := Scanned(s.num, i, 1, 0) + 1]))
  {
    hide Reachable, Scanned;
    Shape(n, k, s);
    Move(n, k, s, i);
    Move(n, k, Step(s, i), i);
    Move(n, k, Step(Step(s, i), i), i);
    var s1 := s.(pc := s.pc[i := ScanFrom(s, i, 1)], choosing := s.choosing[i := true]);
    assert s.num[i := 0] == s.num;
    assert Step(Step(Step(s, i), i), i) == s1;
    Scan(n, k, s1, i, 1);
    var s2 := s1.(pc := s.pc[i := Bump], num := s.num[i := Scanned(s.num, i, 1, 0)]);
    assert s1.pc[i := Bump] == s.pc[i := Bump];
    Move(n, k, s2, i);
    Move(n, k, Step(s2, i), i);
    assert Step(Step(s2, i), i).choosing == s.choosing;
    assert Step(Step(s2, i), i).num == s.num[i := Scanned(s.num, i, 1, 0) + 1];
    assert Step(Step(s2, i), i).pc == s.pc[i := AwaitDoor(0)];
  }

  /** `n` slots, of which slot 0 and slot `k` are at `p0` and `pk` with tickets `t0` and `tk`, and none is choosing. */
  function Two(n: nat, k: nat, t0: nat, p0: Pc, tk: nat, pk: Pc): State
    requires 1 <= k < n
  {
    State(seq(n, _ => false), seq(n, _ => 0)[0 := t0][k := tk], seq(n, _ => Idle)[0 := p0][k := pk])
  }

  /** With at most one ticket out, the scan finds it or finds nothing. */
  lemma {:induction false} ScanTwo(n: nat, k: nat, t0: nat, tk: nat, i: nat, j: nat, own: nat)
    requires 1 <= k < n && (i == 0 || i == k) && 1 <= j
    ensures var num := seq(n, _ => 0)[0 := t0][k := tk];
      Scanned(num, i, j, own) == if i == 0 && j <= k then Larger(tk, own) else own
    decreases n - j
  {
    var num: seq<nat> := seq(n, _ => 0)[0 := t0][k := tk];
    if j < n { ScanTwo(n, k, t0, tk, i, j + 1, if j == i then own else Larger(num[j], own)); }
  }

  /** With slot 0 quiet or holding the lock with ticket 2, slot `k` goes from idle to holding the lock with ticket 1: it
    * never looks at slot 0's ticket before it has its own. */
  lemma SlotKEnters(n: nat, k: nat, t: nat, p: Pc)
    requires 1 <= k < n && (t == 0 || t == 2) && Reachable(n, k, Two(n, k, t, p, 0, Idle))
    ensures Reachable(n, k, Two(n, k, t, p, 1, Critical))
  {
    hide Reachable, Scanned;
    var s := Two(n, k, t, p, 0, Idle);
    ScanTwo(n, k, t, 0, k, 1, 0);
    Draw(n, k, s, k);
    var s1 := Two(n, k, t, p, 1, AwaitDoor(0));
    assert s.(pc := s.pc[k := AwaitDoor(0)], num := s.num[k := 1]) == s1;
    Enter(n, k, s1, k, 0);
    assert s1.(pc := s1.pc[k := Critical]) == Two(n, k, t, p, 1, Critical);
  }

  /** While slot `k` holds the lock with ticket 1, slot 0 draws ticket 2; when slot `k` has released, slot 0 enters. */
  lemma SlotZeroEnters(n: nat, k: nat)
    requires 1 <= k < n && Reachable(n, k, Two(n, k, 0, Idle, 1, Critical))
    ensures Reachable(n, k, Two(n, k, 2, Critical, 0, Idle))
  {
    hide Reachable, Scanned;
    var s := Two(n, k, 0, Idle, 1, Critical);
    ScanTwo(n, k, 0, 1, 0, 1, 0);
    Draw(n, k, s, 0);
    var s1 := Two(n, k, 2, AwaitDoor(0), 1, Critical);
    assert s.(pc := s.pc[0 := AwaitDoor(0)], num := s.num[0 := 2]) == s1;
    Move(n, k, s1, k);
    var s2 := Two(n, k, 2, AwaitDoor(0), 0, Idle);
    assert Step(s1, k) == s2;
    Enter(n, k, s2, 0, 0);
    assert s2.(pc := s2.pc[0 := Critical]) == Two(n, k, 2, Critical, 0, Idle);
  }

  /** A process that lamportLock put in slot 0 is left out of the scan of lines 47-53, and the lock fails: with slot 0
    * and any other slot in use there is a run that ends with both holding it. */
  lemma SlotZeroBreaksExclusion(n: nat, k: nat) returns (sched: seq<nat>)
    requires 1 <= k < n
    ensures Schedule(Init(n), sched) && Within(sched, {0, k})
    ensures Run(Init(n), sched).pc[0].Critical? && Run(Init(n), sched).pc[k].Critical?
  {
    NothingYet(n, k);
    SlotKEnters(n, k, 0, Idle);
    SlotZeroEnters(n, k);
    SlotKEnters(n, k, 2, Critical);
    var s := Two(n, k, 2, Critical, 1, Critical);
    sched :| Schedule(Init(n), sched) && Within(sched, {0, k}) && Run(Init(n), sched) == s;
  }

  /** lamportUnlock does not look at slot 0, so the ticket of a process there outlives its critical section. */
  lemma TicketStays(n: nat, k: nat)
    requires 1 <= k < n && Reachable(n, k, Two(n, k, 0, Idle, 0, Idle))
    ensures Reachable(n, k, Two(n, k, 1, Idle, 0, Idle))
  {
    hide Reachable, Scanned;
    var s := Two(n, k, 0, Idle, 0, Idle);
    ScanTwo(n, k, 0, 0, 0, 1, 0);
    Draw(n, k, s, 0);
    var s1 := Two(n, k, 1, AwaitDoor(0), 0, Idle);
    assert s.(pc := s.pc[0 := AwaitDoor(0)], num := s.num[0 := 1]) == s1;
    Enter(n, k, s1, 0, 0);
    var s2 := Two(n, k, 1, Critical, 0, Idle);
    assert s1.(pc := s1.pc[0 := Critical]) == s2;
    Move(n, k, s2, 0);
    assert Step(s2, 0) == Two(n, k, 1, Idle, 0, Idle);
  }

  lemma NothingYet(n: nat, k: nat)
    requires 1 <= k < n
    ensures Reachable(n, k, Two(n, k, 0, Idle, 0, Idle))
  {
    assert Init(n) == Two(n, k, 0, Idle, 0, Idle) && Run(Init(n), []) == Init(n) && Within([], {0, k});
  }

  /** Whoever draws a ticket not below the one left in slot 0 waits for it, and does not hold the lock as long as no
    * process locks in slot 0 again. */
  predicate Stranded(s: State, i: nat)
    requires WellFormed(s) && i < |s.num|
  {
    && 1 <= i && s.pc[0].Idle? && 0 < s.num[0] <= s.num[i]
    && (s.pc[i] == AwaitDoor(0) || s.pc[i] == AwaitTurn(0))
  }

  lemma {:induction false} StrandedForGood(s: State, sched: seq<nat>, i: nat)
    requires WellFormed(s) && Schedule(s, sched) && Registered(sched) && i < |s.num| && Stranded(s, i)
    ensures Stranded(Run(s, sched), i)
  {
    if sched != [] { StrandedForGood(s, sched[..|sched| - 1], i); }
  }

  /** Some process has begun to lock or holds the lock, and none of those can do anything. */
  ghost predicate Deadlocked(s: State)
    requires WellFormed(s)
  {
    && (exists i :: 0 <= i < |s.num| && !s.pc[i].Idle?)
    && forall i :: 0 <= i < |s.num| && !s.pc[i].Idle? ==> Step(s, i) == s
  }

  /** A process locks and unlocks in slot 0; the next one to lock is stranded. */
  lemma SlotZeroDeadlocks(n: nat, k: nat) returns (sched: seq<nat>)
    requires 1 <= k < n
    ensures Schedule(Init(n), sched) && Within(sched, {0, k})
    ensures Stranded(Run(Init(n), sched), k) && Deadlocked(Run(Init(n), sched))
  {
    NothingYet(n, k);
    TicketStays(n, k);
    var s := Two(n, k, 1, Idle, 0, Idle);
    assert Reachable(n, k, Two(n, k, 1, Idle, 1, AwaitTurn(0))) by {
      hide Reachable, Scanned;
      ScanTwo(n, k, 1, 0, k, 1, 0);
      Draw(n, k, s, k);
      var s1 := Two(n, k, 1, Idle, 1, AwaitDoor(0));
      assert s.(pc := s.pc[k := AwaitDoor(0)], num := s.num[k := 1]) == s1;
      Move(n, k, s1, k);
      assert Step(s1, k) == Two(n, k, 1, Idle, 1, AwaitTurn(0));
    }
    var s2 := Two(n, k, 1, Idle, 1, AwaitTurn(0));
    assert !s2.pc[k].Idle? && Step(s2, k) == s2;
    sched :| Schedule(Init(n), sched) && Within(sched, {0, k}) && Run(Init(n), sched) == s2;
  }

  /** With two slots or more in use, the lock never deadlocks exactly if slot 0 is not one of them. */
  lemma ProgressExactly(n: nat, allowed: set<nat>, a: nat)
    requires n >= 2 && a in allowed && 1 <= a < n
    ensures (forall sched: seq<nat> :: Schedule(Init(n), sched) && Within(sched, allowed) ==>
            !Deadlocked(Run(Init(n), sched)))
            <==> 0 !in allowed
  {
    if 0 in allowed {
      var sched := SlotZeroDeadlocks(n, a);
      assert Within(sched, allowed);
    } else {
      forall sched: seq<nat> | Schedule(Init(n), sched) && Within(sched, allowed)
        ensures !Deadlocked(Run(Init(n), sched))
      {
        assert Registered(sched);
        if i :| 0 <= i < n && !Run(Init(n), sched).pc[i].Idle? {
          var m := NoDeadlock(n, sched, i);
        }
      }
    }
  }

  /** With two slots or more in use, the lock excludes over every run exactly if slot 0 is not one of them. */
  lemma ExclusionExactly(n: nat, allowed: set<nat>, a: nat)
    requires n >= 2 && a in allowed && 1 <= a < n
    ensures (forall sched: seq<nat> :: Schedule(Init(n), sched) && Within(sched, allowed) ==>
            Excludes(Run(Init(n), sched)))
            <==> 0 !in allowed
  {
    if 0 in allowed {
      var sched := SlotZeroBreaksExclusion(n, a);
      assert Within(sched, allowed) && !Excludes(Run(Init(n), sched));
    } else {
      forall sched: seq<nat> | Schedule(Init(n), sched) && Within(sched, allowed)
        ensures Excludes(Run(Init(n), sched))
      {
        assert Registered(sched);
        forall i, k | 0 <= i < k < n
          ensures !(Run(Init(n), sched).pc[i].Critical? && Run(Init(n), sched).pc[k].Critical?)
        {
          MutualExclusion(n, sched, i, k);
        }
      }
    }
  }
}
