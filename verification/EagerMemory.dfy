/** What copy-on-write is meant to look like to programs: every task owns a private copy of its memory, and fork copies
  * all of it at once.
  */
module EagerMemory {
  import opened FrameAccounts
  import opened PageTables

  // ---- ranges of pages, as the loops of mm/memory.c walk them ----

  /** `k` lies in the first `i` directory entries from `from`, or among the first `nr` pages of the next one. */
  predicate Reached(k: Key, from: nat, i: nat, nr: nat) {
    from <= k.0 < from + i || (k.0 == from + i && k.1 < nr)
  }

  /** `m` without the reached pages. */
  function Without<V>(m: map<Key, V>, from: nat, i: nat, nr: nat): map<Key, V> {
    map k | k in m && !Reached(k, from, i, nr) :: m[k]
  }

  lemma WithoutStart<V>(m: map<Key, V>, from: nat)
    ensures Without(m, from, 0, 0) == m
  {
  }

  lemma WithoutStep<V>(m: map<Key, V>, from: nat, i: nat, nr: nat)
    ensures Without(m, from, i, nr + 1) == Without(m, from, i, nr) - {(from + i, nr)}
  {
  }

  lemma WithoutRow<V>(m: map<Key, V>, from: nat, i: nat)
    requires forall k :: k in m ==> k.1 < ENTRIES
    ensures Without(m, from, i + 1, 0) == Without(m, from, i, ENTRIES)
  {
  }

  /** The page of `from` that corresponds to the page `k` of `to`. */
  function Source(k: Key, from: nat, to: nat): Key
    requires k.0 >= to
  {
    (k.0 - to + from, k.1)
  }

  /** `m'` is `m` with the reached pages of `to` copied from `from`. */
  ghost predicate IsCopy<V>(m: map<Key, V>, m': map<Key, V>, from: nat, to: nat, i: nat, nr: nat) {
    forall k: Key ::
      if Reached(k, to, i, nr) then
        (k in m' <==> Source(k, from, to) in m) && (k in m' ==> m'[k] == m[Source(k, from, to)])
      else
        (k in m' <==> k in m) && (k in m' ==> m'[k] == m[k])
  }

  /** A page that is absent in `from` is skipped. */
  lemma CopySkips<V>(m: map<Key, V>, m': map<Key, V>, from: nat, to: nat, i: nat, nr: nat)
    requires IsCopy(m, m', from, to, i, nr) && (from + i, nr) !in m && (to + i, nr) !in m
    ensures IsCopy(m, m', from, to, i, nr + 1)
  {
    forall k: Key | Reached(k, to, i, nr + 1) && !Reached(k, to, i, nr)
      ensures k !in m' && Source(k, from, to) !in m
    {
      assert k == (to + i, nr);
    }
  }

  lemma CopyTakes<V>(m: map<Key, V>, m': map<Key, V>, from: nat, to: nat, i: nat, nr: nat)
    requires IsCopy(m, m', from, to, i, nr) && (from + i, nr) in m && !Reached((from + i, nr), to, i, nr)
    ensures (from + i, nr) in m' && IsCopy(m, m'[(to + i, nr) := m'[(from + i, nr)]], from, to, i, nr + 1)
  {
    forall k: Key | Reached(k, to, i, nr + 1) && !Reached(k, to, i, nr) ensures k == (to + i, nr) {}
  }

  lemma CopyRow<V>(m: map<Key, V>, m': map<Key, V>, from: nat, to: nat, i: nat)
    requires IsCopy(m, m', from, to, i, ENTRIES) && forall k :: k in m ==> k.1 < ENTRIES
    ensures IsCopy(m, m', from, to, i + 1, 0)
  {
    forall k: Key | Reached(k, to, i + 1, 0) != Reached(k, to, i, ENTRIES)
      ensures k !in m' && k.0 >= to && Source(k, from, to) !in m
    {
    }
  }

  lemma CopyEmptyRow<V>(m: map<Key, V>, m': map<Key, V>, from: nat, to: nat, i: nat)
    requires IsCopy(m, m', from, to, i, 0) && forall k :: k in m ==> k.0 != from + i && k.0 != to + i
    ensures IsCopy(m, m', from, to, i + 1, 0)
  {
    forall k: Key | Reached(k, to, i + 1, 0) && !Reached(k, to, i, 0)
      ensures k !in m' && Source(k, from, to) !in m
    {
      assert k.0 == to + i;
    }
  }

  lemma CopyEmptyRows<V>(m: map<Key, V>, m': map<Key, V>, from: nat, to: nat, i: nat, n: nat)
    requires i <= n && IsCopy(m, m', from, to, i, 0)
    requires forall k :: k in m ==> !(from + i <= k.0 < from + n) && !(to + i <= k.0 < to + n)
    ensures IsCopy(m, m', from, to, n, 0)
    decreases n - i
  {
    hide IsCopy;
    if i < n {
      CopyEmptyRow(m, m', from, to, i);
      CopyEmptyRows(m, m', from, to, i + 1, n);
    }
  }

  /** Freeing the pages of `to` undoes a copy that was broken off anywhere. */
  lemma CopyUndone<V>(m: map<Key, V>, m': map<Key, V>, from: nat, to: nat, i: nat, nr: nat, n: nat)
    requires IsCopy(m, m', from, to, i, nr) && (i < n || (i == n && nr == 0))
    requires forall k :: k in m ==> !(to <= k.0 < to + n)
    ensures Without(m', to, n, 0) == m
  {
    forall k: Key ensures k in Without(m', to, n, 0) <==> k in m {
      assert Reached(k, to, i, nr) ==> to <= k.0 < to + n;
    }
  }

  // ---- the tasks' memories ----

  predicate Owns(t: nat, k: Key) {
    t * SLOT <= k.0 < (t + 1) * SLOT
  }

  /** The page of `u` at the place where `t` has the page `s`. */
  function Moved(s: Key, t: nat, u: nat): Key
    requires Owns(t, s)
  {
    (s.0 - t * SLOT + u * SLOT, s.1)
  }

  lemma MovedBack(s: Key, t: nat, u: nat)
    requires Owns(t, s)
    ensures Owns(u, Moved(s, t, u)) && Source(Moved(s, t, u), t * SLOT, u * SLOT) == s
  {
  }

  lemma SourceForth(k: Key, t: nat, u: nat)
    requires Owns(u, k)
    ensures Owns(t, Source(k, t * SLOT, u * SLOT)) && Moved(Source(k, t * SLOT, u * SLOT), t, u) == k
  {
  }

  /** fork: the memory of `u` becomes a copy of the memory of `t`. */
  function Forked(sp: Space, t: nat, u: nat): Space {
    map k | k in sp.Keys + (set s | s in sp && Owns(t, s) :: Moved(s, t, u)) ::
      if Owns(u, k) && Source(k, t * SLOT, u * SLOT) in sp then sp[Source(k, t * SLOT, u * SLOT)]
      else if k in sp then sp[k] else ZeroPage()
  }

  lemma ForkedAt(sp: Space, t: nat, u: nat, k: Key)
    ensures !Owns(u, k) ==> (k in Forked(sp, t, u) <==> k in sp) && (k in sp ==> Forked(sp, t, u)[k] == sp[k])
    ensures Owns(u, k) ==>
              var s := Source(k, t * SLOT, u * SLOT);
              && (k in Forked(sp, t, u) <==> k in sp || s in sp)
              && (s in sp ==> Forked(sp, t, u)[k] == sp[s])
  {
    forall s | s in sp && Owns(t, s) && k == Moved(s, t, u) ensures Owns(u, k) && s == Source(k, t * SLOT, u * SLOT) {
      MovedBack(s, t, u);
    }
    if Owns(u, k) { SourceForth(k, t, u); }
  }

  /** exit: the memory of `t` is gone. */
  function Exited(sp: Space, t: nat): Space {
    Without(sp, t * SLOT, SLOT, 0)
  }

  /** What a program finds in the page `k`: a page it never touched reads as zero. */
  function PageAt(sp: Space, k: Key): Page {
    if k in sp then sp[k] else ZeroPage()
  }

  function Written(sp: Space, k: Key, o: nat, v: Word): Space {
    if o < |PageAt(sp, k)| then sp[k := PageAt(sp, k)[o := v]] else sp
  }

  /** A copy of all 16 directory entries is a fork. */
  lemma CopyIsFork(sp: Space, sp': Space, t: nat, u: nat)
    requires IsCopy(sp, sp', t * SLOT, u * SLOT, SLOT, 0) && forall k :: k in sp ==> !Owns(u, k)
    ensures sp' == Forked(sp, t, u)
  {
    hide Forked, Owns;
    forall k: Key ensures (k in sp' <==> k in Forked(sp, t, u)) && (k in sp' ==> sp'[k] == Forked(sp, t, u)[k]) {
      ForkedAt(sp, t, u, k);
      SlotReached(u, k);
    }
  }

  lemma SlotReached(u: nat, k: Key)
    ensures Reached(k, u * SLOT, SLOT, 0) <==> Owns(u, k)
  {
  }

  /** What tasks do, and how it can end: memory can run out, and a fork into a slot in use or a share of a page that
    * cannot be shared is refused. */
  datatype Event =
    | Fork(t: nat, u: nat)
    | Write(t: nat, page: Key, offset: nat, value: Word)
    | Exit(t: nat)
    | Share(t: nat, u: nat, page: Key)

  datatype Outcome = Done | OutOfMemory | Refused

  /** The page of `t` at the place `page` of its own memory. */
  function PageOf(t: nat, page: Key): Key {
    (t * SLOT + page.0, page.1)
  }

  predicate WellFormed(e: Event) {
    && 1 <= e.t < TASKS
    && (e.Fork? || e.Share? ==> 1 <= e.u < TASKS && e.u != e.t)
    && (e.Write? || e.Share? ==> e.page.0 < SLOT && e.page.1 < ENTRIES)
    && (e.Write? ==> e.offset < ENTRIES)
  }

  /** A task that finds no memory left is killed. */
  function EagerStep(sp: Space, e: Event, oc: Outcome): Space {
    if oc.Refused? then sp
    else
      match e
      case Fork(t, u) => if oc.Done? then Forked(sp, t, u) else sp
      case Write(t, page, offset, value) =>
        if oc.Done? then Written(sp, PageOf(t, page), offset, value) else Exited(sp, t)
      case Exit(t) => Exited(sp, t)
      case Share(t, u, page) =>
        if oc.Done? then sp[PageOf(t, page) := PageAt(sp, PageOf(u, page))] else Exited(sp, t)
  }

  function EagerRun(sp: Space, events: seq<Event>, outcomes: seq<Outcome>): Space
    requires |events| == |outcomes|
  {
    if events == [] then sp
    else EagerStep(EagerRun(sp, events[..|events| - 1], outcomes[..|events| - 1]),
                   events[|events| - 1], outcomes[|events| - 1])
  }

  /** What that is: a store puts the value into its page, which is made of zeros if it was not there; a child has its
    * parent's pages; a shared page is the other task's; a task that exits, or is killed, has nothing left; and all
    * other pages are as before. */
  lemma EagerStepIs(sp: Space, e: Event, oc: Outcome, k: Key)
    requires WellFormed(e) && (e.Write? ==> |PageAt(sp, PageOf(e.t, e.page))| == ENTRIES)
    ensures var sp' := EagerStep(sp, e, oc);
      var gone := !oc.Refused? && (e.Exit? || (oc.OutOfMemory? && !e.Fork?));
      && (gone && Owns(e.t, k) ==> k !in sp')
      && ((gone && !Owns(e.t, k)) || oc.Refused? || (e.Fork? && !oc.Done?) ==>
            (k in sp' <==> k in sp) && PageAt(sp', k) == PageAt(sp, k))
      && (e.Fork? && oc.Done? ==>
            if !Owns(e.u, k) then PageAt(sp', k) == PageAt(sp, k)
            else var s := (k.0 - e.u * SLOT + e.t * SLOT, k.1); s in sp ==> k in sp' && sp'[k] == sp[s])
      && (e.Write? && oc.Done? ==>
            if k != (e.t * SLOT + e.page.0, e.page.1) then PageAt(sp', k) == PageAt(sp, k)
            else k in sp' && sp'[k] == PageAt(sp, k)[e.offset := e.value])
      && (e.Share? && oc.Done? ==>
            if k != (e.t * SLOT + e.page.0, e.page.1) then PageAt(sp', k) == PageAt(sp, k)
            else k in sp' && sp'[k] == PageAt(sp, (e.u * SLOT + e.page.0, e.page.1)))
  {
    SlotReached(e.t, k);
    if e.Fork? { ForkedAt(sp, e.t, e.u, k); }
  }

  // ---- privacy ----

  /** `e` may change the memory of task `x`: its own doing, or its creation. */
  predicate Concerns(e: Event, x: nat) {
    (if e.Fork? then e.u else e.t) == x
  }

  ghost predicate SameMemory(sp: Space, sp': Space, x: nat) {
    forall k: Key :: Owns(x, k) ==> (k in sp <==> k in sp') && (k in sp ==> sp'[k] == sp[k])
  }

  lemma OwnersApart(t: nat, x: nat, k: Key)
    requires Owns(t, k) && Owns(x, k)
    ensures t == x
  {
  }

  lemma StepIsPrivate(sp: Space, e: Event, oc: Outcome, x: nat)
    requires WellFormed(e) && !Concerns(e, x)
    ensures SameMemory(sp, EagerStep(sp, e, oc), x)
  {
    var sp' := EagerStep(sp, e, oc);
    forall k: Key | Owns(x, k) ensures (k in sp <==> k in sp') && (k in sp ==> sp'[k] == sp[k]) {
      var actor := if e.Fork? then e.u else e.t;
      assert !Owns(actor, k) by {
        if Owns(actor, k) { OwnersApart(actor, x, k); }
      }
      SlotReached(actor, k);
      if e.Fork? {
        ForkedAt(sp, e.t, e.u, k);
      } else if e.Write? || e.Share? {
        assert Owns(e.t, PageOf(e.t, e.page));
      }
    }
  }

  /** Whatever other tasks do, a task's memory stays as it left it. */
  lemma {:induction false} MemoryIsPrivate(sp: Space, events: seq<Event>, outcomes: seq<Outcome>, x: nat)
    requires |events| == |outcomes|
    requires forall i :: 0 <= i < |events| ==> WellFormed(events[i]) && !Concerns(events[i], x)
    ensures SameMemory(sp, EagerRun(sp, events, outcomes), x)
  {
    if events != [] {
      var n := |events| - 1;
      MemoryIsPrivate(sp, events[..n], outcomes[..n], x);
      StepIsPrivate(EagerRun(sp, events[..n], outcomes[..n]), events[n], outcomes[n], x);
    }
  }

  /** Right after a fork, the child's memory is the parent's, page for page. */
  lemma ChildIsCopy(sp: Space, t: nat, u: nat, page: Key)
    requires t != u && page.0 < SLOT && PageOf(u, page) !in sp
    ensures PageOf(u, page) in Forked(sp, t, u) <==> PageOf(t, page) in sp
    ensures PageAt(Forked(sp, t, u), PageOf(u, page)) == PageAt(sp, PageOf(t, page))
  {
    var k, s := PageOf(u, page), PageOf(t, page);
    ForkedAt(sp, t, u, k);
    assert Owns(u, k) && Source(k, t * SLOT, u * SLOT) == s;
  }
}
