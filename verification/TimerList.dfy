/** The timer list of kernel/sched.c: pending requests in order, each holding the ticks between the one before it and
  * itself.
  */
module TimerList {
  import opened Links

  /** A request: the ticks after the previous one, and the function to call. */
  datatype Entry = Entry(delta: int, fn: nat)

  predicate AllPositive(q: seq<Entry>) {
    forall i :: 0 <= i < |q| ==> q[i].delta > 0
  }

  /** Ticks until entry `i` is called. */
  function Due(q: seq<Entry>, i: nat): int
    requires i < |q|
  {
    if i == 0 then q[0].delta else q[0].delta + Due(q[1..], i - 1)
  }

  /** add_timer with a positive time: the new entry moves back past those due before it, giving up their ticks. */
  function Insert(q: seq<Entry>, jiffies: int, fn: nat): (r: seq<Entry>)
    ensures |r| == |q| + 1
  {
    if q == [] || !(q[0].delta < jiffies) then [Entry(jiffies, fn)] + q
    else [q[0]] + Insert(q[1..], jiffies - q[0].delta, fn)
  }

  /** Where it ends up. */
  function Place(q: seq<Entry>, jiffies: int): (p: nat)
    ensures p <= |q|
  {
    if q == [] || !(q[0].delta < jiffies) then 0 else 1 + Place(q[1..], jiffies - q[0].delta)
  }

  lemma {:induction false} InsertIsSplice(q: seq<Entry>, jiffies: int, fn: nat)
    ensures var p, r := Place(q, jiffies), Insert(q, jiffies, fn);
      r[..p] == q[..p] && r[p].fn == fn && r[p + 1..] == q[p..]
  {
    if !(q == [] || !(q[0].delta < jiffies)) {
      InsertIsSplice(q[1..], jiffies - q[0].delta, fn);
      var p := Place(q, jiffies);
      assert Insert(q, jiffies, fn)[..p] == [q[0]] + Insert(q[1..], jiffies - q[0].delta, fn)[..p - 1];
      assert Insert(q, jiffies, fn)[p + 1..] == Insert(q[1..], jiffies - q[0].delta, fn)[p..];
    }
  }

  lemma {:induction false} InsertOwnDue(q: seq<Entry>, jiffies: int, fn: nat)
    requires AllPositive(q) && jiffies > 0
    ensures var p, r := Place(q, jiffies), Insert(q, jiffies, fn); AllPositive(r) && Due(r, p) == jiffies
  {
    if !(q == [] || !(q[0].delta < jiffies)) {
      InsertOwnDue(q[1..], jiffies - q[0].delta, fn);
      assert Insert(q, jiffies, fn)[1..] == Insert(q[1..], jiffies - q[0].delta, fn);
    }
  }

  lemma {:induction false} InsertDueOf(q: seq<Entry>, jiffies: int, fn: nat, i: nat)
    requires AllPositive(q) && jiffies > 0 && i < |q|
    ensures var p, r := Place(q, jiffies), Insert(q, jiffies, fn);
      if i < p then Due(r, i) == Due(q, i) < jiffies
      else Due(r, i + 1) == Due(q, i) + r[p].delta && Due(q, i) >= jiffies
  {
    var p, r := Place(q, jiffies), Insert(q, jiffies, fn);
    if q[0].delta < jiffies {
      assert r[1..] == Insert(q[1..], jiffies - q[0].delta, fn);
      if i > 0 { InsertDueOf(q[1..], jiffies - q[0].delta, fn, i - 1); }
    } else {
      assert r[1..] == q;
      DueAtLeast(q, i);
    }
  }

  /** The new entry is due exactly when asked; those before it are due as before; each of those behind it is due later
    * by the new entry's own delta. */
  lemma InsertDue(q: seq<Entry>, jiffies: int, fn: nat)
    requires AllPositive(q) && jiffies > 0
    ensures var p, r := Place(q, jiffies), Insert(q, jiffies, fn);
      && AllPositive(r) && Due(r, p) == jiffies
      && (forall i: nat :: i < p ==> Due(r, i) == Due(q, i) < jiffies)
      && (forall i: nat :: p <= i < |q| ==> Due(r, i + 1) == Due(q, i) + r[p].delta && Due(q, i) >= jiffies)
  {
    hide Insert, Place, Due;
    InsertOwnDue(q, jiffies, fn);
    var p, r := Place(q, jiffies), Insert(q, jiffies, fn);
    forall i: nat | i < p ensures Due(r, i) == Due(q, i) < jiffies { InsertDueOf(q, jiffies, fn, i); }
    forall i: nat | p <= i < |q| ensures Due(r, i + 1) == Due(q, i) + r[p].delta && Due(q, i) >= jiffies {
      InsertDueOf(q, jiffies, fn, i);
    }
  }

  lemma {:induction false} DueAtLeast(q: seq<Entry>, i: nat)
    requires AllPositive(q) && i < |q|
    ensures Due(q, i) >= q[0].delta + i
  {
    if i > 0 { DueAtLeast(q[1..], i - 1); }
  }

  /** Nobody is delayed by a new request: each old entry is still due when it was. */
  ghost predicate NobodyDelayed(q: seq<Entry>, jiffies: int, fn: nat) {
    var p, r := Place(q, jiffies), Insert(q, jiffies, fn);
    forall i: nat :: i < |q| ==> Due(r, if i < p then i else i + 1) == Due(q, i)
  }

  /** That holds exactly when the new request is due after all the others. */
  lemma DelayedUnlessLast(q: seq<Entry>, jiffies: int, fn: nat)
    requires AllPositive(q) && jiffies > 0
    ensures NobodyDelayed(q, jiffies, fn) <==> q == [] || Due(q, |q| - 1) < jiffies
  {
    hide Due, Insert, Place;
    InsertDue(q, jiffies, fn);
    var p, r := Place(q, jiffies), Insert(q, jiffies, fn);
    assert r[p].delta > 0;
    if q != [] {
      if p < |q| {
        assert Due(q, |q| - 1) >= jiffies;
        assert Due(r, p + 1) == Due(q, p) + r[p].delta;
      } else {
        assert Due(q, |q| - 1) < jiffies;
      }
    }
  }

  /** A request for 5 ticks makes the one due in 10 wait for 15. */
  lemma DelayExample(f: nat, g: nat)
    ensures Insert([Entry(10, f)], 5, g) == [Entry(5, g), Entry(10, f)]
    ensures Due([Entry(10, f)], 0) == 10 && Due(Insert([Entry(10, f)], 5, g), 1) == 15
  {
    assert [Entry(5, g), Entry(10, f)][1..] == [Entry(10, f)];
  }

  // ---- ticks ----

  /** do_timer's countdown: entries at or below zero are taken off. */
  function Expired(q: seq<Entry>): (n: nat)
    ensures n <= |q|
  {
    if q == [] || q[0].delta > 0 then 0 else 1 + Expired(q[1..])
  }

  function CountDown(q: seq<Entry>): seq<Entry> {
    if q == [] then [] else [q[0].(delta := q[0].delta - 1)] + q[1..]
  }

  function Tick(q: seq<Entry>): seq<Entry> {
    CountDown(q)[Expired(CountDown(q))..]
  }

  /** What a tick comes to when all deltas are positive. */
  lemma TickIs(q: seq<Entry>)
    requires AllPositive(q)
    ensures q == [] ==> Tick(q) == [] && Expired(CountDown(q)) == 0
    ensures q != [] && q[0].delta == 1 ==> Tick(q) == q[1..] && Expired(CountDown(q)) == 1
    ensures q != [] && q[0].delta > 1 ==> Tick(q) == CountDown(q) && Expired(CountDown(q)) == 0
  {
    var c := CountDown(q);
    if q != [] {
      assert c[1..] == q[1..];
      assert Expired(q[1..]) == 0 by { if |q| > 1 { assert q[1..][0] == q[1]; } }
      assert c[0..] == c;
      assert Tick(q) == c[Expired(c)..];
    }
  }

  lemma CountDownNames(q: seq<Entry>)
    ensures |CountDown(q)| == |q| && forall i :: 0 <= i < |q| ==> CountDown(q)[i].fn == q[i].fn
    ensures q != [] ==> Due(q, 0) == q[0].delta
    ensures AllPositive(q) && q != [] ==> q[0].delta >= 1
  {
  }

  lemma TickDue(q: seq<Entry>, i: nat)
    requires AllPositive(q) && i < |q| && (i == 0 ==> q[0].delta > 1)
    ensures if q[0].delta == 1 then Due(q[1..], i - 1) == Due(q, i) - 1
            else CountDown(q)[i].fn == q[i].fn && Due(CountDown(q), i) == Due(q, i) - 1
  {
    assert CountDown(q)[1..] == q[1..];
  }

  /** At most one entry is called per tick, the first, and only when it is due; all others come one tick nearer. */
  lemma TickFiresOne(q: seq<Entry>)
    requires AllPositive(q)
    ensures AllPositive(Tick(q)) && |Tick(q)| == |q| - Expired(CountDown(q))
    ensures Expired(CountDown(q)) == if q != [] && Due(q, 0) == 1 then 1 else 0
    ensures var e := Expired(CountDown(q));
      forall i: nat :: e <= i < |q| ==> Tick(q)[i - e].fn == q[i].fn && Due(Tick(q), i - e) == Due(q, i) - 1
  {
    hide Tick, Expired, CountDown;
    TickIs(q);
    if q != [] {
      assert Due(q, 0) == q[0].delta;
      TickPositive(q);
      var e := Expired(CountDown(q));
      forall i: nat | e <= i < |q| ensures Tick(q)[i - e].fn == q[i].fn && Due(Tick(q), i - e) == Due(q, i) - 1 {
        TickDue(q, i);
      }
    }
  }

  lemma TickPositive(q: seq<Entry>)
    requires AllPositive(q) && q != []
    ensures |CountDown(q)| == |q| && AllPositive(q[1..]) && (q[0].delta > 1 ==> AllPositive(CountDown(q)))
  {
  }

  datatype Event = TickEvent | AddEvent(jiffies: int, fn: nat)

  /** Requests for no time are called at once and never enter the list. */
  function Run(q: seq<Entry>, events: seq<Event>): seq<Entry>
    decreases |events|
  {
    if events == [] then q
    else match events[0]
      case TickEvent => Run(Tick(q), events[1..])
      case AddEvent(j, fn) => Run(if j <= 0 then q else Insert(q, j, fn), events[1..])
  }

  function Ticks(events: seq<Event>): nat {
    if events == [] then 0 else (if events[0].TickEvent? then 1 else 0) + Ticks(events[1..])
  }

  lemma {:induction false} TicksAre(events: seq<Event>)
    ensures Ticks(events) == multiset(events)[TickEvent]
  {
    if events != [] {
      TicksAre(events[1..]);
      assert events == [events[0]] + events[1..];
    }
  }

  /** Where entry `i` of `q` is after the events, -1 once it has been called: a tick takes the entries at the front, and
    * a new request shifts those behind it. */
  function Track(q: seq<Entry>, events: seq<Event>, i: nat): (k: int)
    ensures k >= -1
    decreases |events|
  {
    if events == [] then i
    else match events[0]
      case TickEvent =>
        var e := Expired(CountDown(q));
        if i < e then -1 else Track(Tick(q), events[1..], i - e)
      case AddEvent(j, fn) =>
        if j <= 0 then Track(q, events[1..], i)
        else Track(Insert(q, j, fn), events[1..], if i < Place(q, j) then i else i + 1)
  }

  /** Never early: until the ticks an entry was due in have passed, that same entry is still on the list, whatever is
    * added meanwhile. */
  lemma {:induction false} NeverEarly(q: seq<Entry>, events: seq<Event>, i: nat)
    requires AllPositive(q) && i < |q| && Ticks(events) < Due(q, i)
    ensures AllPositive(Run(q, events))
    ensures var r, k := Run(q, events), Track(q, events, i);
      0 <= k < |r| && r[k].fn == q[i].fn && Due(r, k) >= Due(q, i) - Ticks(events)
    decreases |events|
  {
    hide Due, Tick, Insert, Expired, CountDown, Place;
    if events == [] {
      assert q[i].fn == Run(q, events)[i].fn;
    } else {
      match events[0]
      case TickEvent =>
        TickFiresOne(q);
        var e := Expired(CountDown(q));
        assert e <= i;
        NeverEarly(Tick(q), events[1..], i - e);
      case AddEvent(j, fn) =>
        if j <= 0 {
          NeverEarly(q, events[1..], i);
        } else {
          InsertDue(q, j, fn);
          InsertIsSplice(q, j, fn);
          var p, r := Place(q, j), Insert(q, j, fn);
          if i < p {
            assert r[i] == r[..p][i];
            NeverEarly(r, events[1..], i);
          } else {
            assert r[i + 1] == r[p + 1..][i - p];
            NeverEarly(r, events[1..], i + 1);
          }
        }
    }
  }

  /** With no request added meanwhile, an entry is called at the very tick it was due: it is first in line for the next
    * tick when all but one of its ticks have passed. */
  lemma {:induction false} OnTime(q: seq<Entry>, events: seq<Event>, i: nat)
    requires AllPositive(q) && i < |q| && Due(q, i) == |events| + 1
    requires forall k :: 0 <= k < |events| ==> events[k].TickEvent?
    ensures var r := Run(q, events); r != [] && Track(q, events, i) == 0 && r[0].fn == q[i].fn && r[0].delta == 1
    decreases |events|
  {
    hide Tick, Expired;
    if events == [] {
      DueAtLeast(q, i);
    } else {
      TickFiresOne(q);
      var e := Expired(CountDown(q));
      OnTime(Tick(q), events[1..], i - e);
    }
  }

  // ---- the table ----

  /** struct timer_list; `fn` is 0 in a free slot. */
  datatype Slot = Slot(jiffies: int, fn: nat, next: int)

  predicate Linked(t: seq<Slot>, s: seq<nat>, i: nat) {
    i < |s| && s[i] < |t| && t[s[i]].next == At(s, i + 1) && t[s[i]].fn != 0
  }

  predicate ListOK(t: seq<Slot>, head: int, s: seq<nat>) {
    && Distinct(s) && head == At(s, 0) && (forall i: nat :: i < |s| ==> Linked(t, s, i))
    && forall x: nat :: x < |t| && t[x].fn != 0 ==> x in s
  }

  function EntryAt(t: seq<Slot>, x: nat): Entry {
    if x < |t| then Entry(t[x].jiffies, t[x].fn) else Entry(0, 0)
  }

  function EntriesOf(t: seq<Slot>, s: seq<nat>): (r: seq<Entry>)
    ensures |r| == |s| && forall i :: 0 <= i < |s| ==> r[i] == EntryAt(t, s[i])
  {
    seq(|s|, i requires 0 <= i < |s| => EntryAt(t, s[i]))
  }

  class Timers {
    const list: array<Slot>
    var nextTimer: int
    ghost var order: seq<nat>

    ghost function Pending(): seq<Entry>
      reads this, list
    {
      EntriesOf(list[..], order)
    }

    ghost predicate Valid()
      reads this, list
    {
      ListOK(list[..], nextTimer, order) && AllPositive(Pending())
    }

    constructor (n: nat)
      ensures Valid() && Pending() == [] && list.Length == n && fresh(list)
    {
      list := new Slot[n](_ => Slot(0, 0, NULL));
      nextTimer := NULL;
      order := [];
    }

    /** add_timer's search for a slot: the first free one. */
    method FreeSlot() returns (p: nat)
      requires exists x: nat :: x < list.Length && list[x].fn == 0
      ensures p < list.Length && list[p].fn == 0 && forall x :: 0 <= x < p ==> list[x].fn != 0
    {
      p := 0;
      while p < list.Length && list[p].fn != 0
        invariant p <= list.Length && forall x :: 0 <= x < p ==> list[x].fn != 0
      {
        p := p + 1;
      }
    }

    /** add_timer: `now` says that the function is called at once.  The panic for want of a slot is the precondition. */
    method AddTimer(jiffies: int, fn: nat) returns (now: bool)
      requires Valid() && exists x: nat :: x < list.Length && list[x].fn == 0
      modifies this, list
      ensures Valid() && now == (fn != 0 && jiffies <= 0)
      ensures Pending() == if fn == 0 || jiffies <= 0 then old(Pending()) else Insert(old(Pending()), jiffies, fn)
    {
      if fn == 0 {
        return false;
      }
      now := jiffies <= 0;
      if now {
        return;
      }
      hide Insert, Place, Due, EntriesOf, ListOK;
      ghost var q, s := Pending(), order;
      InsertDue(q, jiffies, fn);
      var p := FreeSlot();
      list[p] := Slot(jiffies, fn, nextTimer);
      nextTimer := p;
      order := [p] + s;
      FirstInLine(old(list[..]), list[..], old(nextTimer), s, p);
      Bubble(p, q, jiffies, fn);
    }

    /** The exchange in the loop of add_timer. */
    method Exchange(p: nat, next: nat)
      requires p < list.Length && next < list.Length && p != next
      modifies list
      ensures list[..] == old(list[..])[p := Slot(old(list[next]).jiffies, old(list[next]).fn, old(list[p]).next)]
                [next := Slot(old(list[p]).jiffies - old(list[next]).jiffies, old(list[p]).fn, old(list[next]).next)]
    {
      list[p] := list[p].(jiffies := list[p].jiffies - list[next].jiffies);
      var f := list[p].fn;
      list[p] := list[p].(fn := list[next].fn);
      list[next] := list[next].(fn := f);
      var j := list[p].jiffies;
      list[p] := list[p].(jiffies := list[next].jiffies);
      list[next] := list[next].(jiffies := j);
    }

    /** The loop of add_timer: requests change places, not links. */
    method Bubble(first: nat, ghost q: seq<Entry>, ghost jiffies: int, ghost fn: nat)
      requires ListOK(list[..], nextTimer, order) && order != [] && first == order[0] && fn != 0
      requires Pending() == [Entry(jiffies, fn)] + q && forall i :: 0 <= i < |q| ==> q[i].fn != 0
      modifies list
      ensures ListOK(list[..], nextTimer, order) && Pending() == Insert(q, jiffies, fn)
    {
      hide Moving, EntriesOf, ListOK, Insert;
      var p := first;
      ghost var i: nat, left := 0, jiffies;
      MovingStart(list[..], nextTimer, order, q, jiffies, fn);
      MovingAt(list[..], nextTimer, order, q, jiffies, fn, 0, jiffies);
      while list[p].next != NULL && list[list[p].next].jiffies < list[p].jiffies
        invariant Moving(list[..], nextTimer, order, q, jiffies, fn, i, left)
        invariant i < |order| == |q| + 1 && p == order[i] < list.Length
        invariant list[p].next == At(order, i + 1) && list[p].jiffies == left
        invariant i < |q| ==> order[i + 1] < list.Length && list[order[i + 1]].jiffies == q[i].delta
        decreases |order| - i
      {
        ghost var was := list[..];
        var next := list[p].next;
        MovingAt(was, nextTimer, order, q, jiffies, fn, i, left);
        Exchange(p, next);
        MovingStep(was, list[..], nextTimer, order, q, jiffies, fn, i, left);
        left := left - q[i].delta;
        i := i + 1;
        p := next;
        MovingAt(list[..], nextTimer, order, q, jiffies, fn, i, left);
      }
      MovingEnd(list[..], nextTimer, order, q, jiffies, fn, i, left);
    }

    /** The requests a called function makes, those of functions it has called at once included. */
    method MakeRequests(adds: seq<Event>)
      requires Valid() && OnlyAdds(adds) && |Pending()| + |adds| <= list.Length
      modifies this, list
      ensures Valid() && Pending() == Run(old(Pending()), adds)
    {
      hide EntriesOf, ListOK, AllPositive;
      ghost var q := Pending();
      for i := 0 to |adds|
        invariant Valid() && |Pending()| + |adds| - i <= list.Length && Pending() == Run(q, adds[..i])
      {
        FreeThere(list[..], nextTimer, order);
        RunOne(q, adds, i);
        var now := AddTimer(adds[i].jiffies, adds[i].fn);
      }
      assert adds[..|adds|] == adds;
    }

    /** The timer part of do_timer.  What is called may ask for new timers, `adds`, before the loop goes on. */
    method DoTimer(adds: seq<Event>) returns (fired: seq<nat>)
      requires Valid() && OnlyAdds(adds) && |Pending()| + |adds| <= list.Length + 1
      modifies this, list
      ensures fired == if old(Pending()) != [] && Due(old(Pending()), 0) == 1 then [old(Pending())[0].fn] else []
      ensures Valid() && Pending() == Run(Tick(old(Pending())), if fired == [] then [] else adds)
    {
      hide EntriesOf, Expired, ListOK, Due, AllPositive, CountDown, Run;
      ghost var q := Pending();
      ghost var c := CountDown(q);
      fired := [];
      TickFiresOne(q);
      TickIs(q);
      CountDownNames(q);
      RunNothing(Tick(q));
      HeadOf(list[..], nextTimer, order);
      if nextTimer != NULL {
        CountedDown(list[..], nextTimer, order);
        list[nextTimer] := list[nextTimer].(jiffies := list[nextTimer].jiffies - 1);
        assert EntryAt(list[..], order[0]) == c[0];
        while nextTimer != NULL && list[nextTimer].jiffies <= 0
          invariant nextTimer != NULL ==> 0 <= nextTimer < list.Length && order != [] && nextTimer == order[0]
          invariant fired == [] ==>
                      && ListOK(list[..], nextTimer, order) && Pending() == c && nextTimer != NULL
                      && list[nextTimer].jiffies == c[0].delta && list[nextTimer].fn == c[0].fn
          invariant fired != [] ==> Valid() && Pending() == Run(c[1..], adds) && fired == [c[0].fn] && c[0].delta <= 0
          invariant fired != [] && nextTimer != NULL ==> list[nextTimer].jiffies > 0
          decreases 1 - |fired|
        {
          var fn := list[nextTimer].fn;
          Called(list[..], nextTimer, order);
          list[nextTimer] := list[nextTimer].(fn := 0);
          nextTimer := list[nextTimer].next;
          order := order[1..];
          fired := fired + [fn];
          CountedRest(q);
          MakeRequests(adds);
          HeadOf(list[..], nextTimer, order);
          HeadPositive(list[..], order);
        }
        CountedRest(q);
        ExpiredStep(c, 0);
        if fired == [] { CountedAll(q); }
      }
    }
  }

  predicate OnlyAdds(adds: seq<Event>) {
    forall i :: 0 <= i < |adds| ==> adds[i].AddEvent? && adds[i].fn != 0
  }

  lemma RunNothing(q: seq<Entry>)
    ensures Run(q, []) == q
  {
  }

  lemma {:induction false} RunAppend(q: seq<Entry>, a: seq<Event>, e: Event)
    ensures Run(q, a + [e]) == Run(Run(q, a), [e])
    decreases |a|
  {
    hide Insert, Tick;
    if a == [] {
      assert a + [e] == [e];
    } else {
      assert (a + [e])[1..] == a[1..] + [e];
      match a[0]
      case TickEvent => RunAppend(Tick(q), a[1..], e);
      case AddEvent(j, fn) => RunAppend(if j <= 0 then q else Insert(q, j, fn), a[1..], e);
    }
  }

  lemma RunOne(q: seq<Entry>, adds: seq<Event>, i: nat)
    requires i < |adds| && OnlyAdds(adds)
    ensures var r, j := Run(q, adds[..i]), adds[i].jiffies;
      Run(q, adds[..i + 1]) == if j <= 0 then r else Insert(r, j, adds[i].fn)
  {
    hide Insert, Tick;
    assert adds[..i + 1] == adds[..i] + [adds[i]];
    RunAppend(q, adds[..i], adds[i]);
  }

  /** With fewer requests than slots, some slot is free. */
  lemma FreeThere(t: seq<Slot>, head: int, s: seq<nat>)
    requires ListOK(t, head, s) && |s| < |t|
    ensures exists x: nat :: x < |t| && t[x].fn == 0
  {
    if forall x: nat :: x < |t| ==> t[x].fn != 0 {
      forall x: nat | x < |t| ensures x in s {}
      NotAllListed(s, |t|);
    }
  }

  lemma {:induction false} NotAllListed(s: seq<nat>, n: nat)
    requires forall x: nat :: x < n ==> x in s
    ensures |s| >= n
  {
    if n > 0 {
      var last: nat := n - 1;
      assert last in s;
      var i :| 0 <= i < |s| && s[i] == last;
      var rest := s[..i] + s[i + 1..];
      forall x: nat | x < n - 1 ensures x in rest {
        assert x in s;
        var k :| 0 <= k < |s| && s[k] == x;
        assert rest[if k < i then k else k - 1] == x;
      }
      NotAllListed(rest, n - 1);
    }
  }

  lemma CountedRest(q: seq<Entry>)
    requires AllPositive(q) && q != []
    ensures CountDown(q) != [] && CountDown(q)[1..] == q[1..] && AllPositive(q[1..]) && Expired(q[1..]) == 0
    ensures CountDown(q)[0] == q[0].(delta := q[0].delta - 1)
  {
    if |q| > 1 { assert q[1..][0] == q[1]; }
  }

  lemma CountedAll(q: seq<Entry>)
    requires AllPositive(q) && q != [] && CountDown(q) != [] && CountDown(q)[0].delta > 0
    ensures AllPositive(CountDown(q))
  {
  }

  lemma HeadPositive(t: seq<Slot>, s: seq<nat>)
    requires AllPositive(EntriesOf(t, s))
    ensures s != [] && s[0] < |t| ==> t[s[0]].jiffies > 0
  {
    if s != [] { assert EntriesOf(t, s)[0] == EntryAt(t, s[0]); }
  }

  // ---- what the methods rest on ----

  lemma FirstInLine(was: seq<Slot>, now: seq<Slot>, head: int, s: seq<nat>, p: nat)
    requires ListOK(was, head, s) && p < |was| && was[p].fn == 0 && |now| == |was| && now == was[p := now[p]]
    requires now[p].fn != 0 && now[p].next == head
    ensures ListOK(now, p, [p] + s) && EntriesOf(now, [p] + s) == [EntryAt(now, p)] + EntriesOf(was, s)
    ensures forall i :: 0 <= i < |s| ==> EntriesOf(was, s)[i].fn != 0
  {
    var t := [p] + s;
    forall i: nat | i < |s| ensures s[i] != p && s[i] < |was| && was[s[i]].fn != 0 { assert Linked(was, s, i); }
    forall i: nat | i < |t| ensures Linked(now, t, i) {
      if i > 0 { assert Linked(was, s, i - 1); }
    }
    forall x: nat | x < |now| && now[x].fn != 0 ensures x in t { assert x == p || x in s; }
  }

  lemma InsertSteps(q: seq<Entry>, i: nat, left: int, fn: nat)
    requires i <= |q|
    ensures if i < |q| && q[i].delta < left
            then q[..i] + Insert(q[i..], left, fn) == q[..i + 1] + Insert(q[i + 1..], left - q[i].delta, fn)
            else Insert(q[i..], left, fn) == [Entry(left, fn)] + q[i..]
  {
    if i < |q| && q[i].delta < left {
      assert q[i..][1..] == q[i + 1..];
      assert q[..i + 1] == q[..i] + [q[i]];
    }
  }

  lemma Swapped(was: seq<Slot>, now: seq<Slot>, head: int, s: seq<nat>, q: seq<Entry>, i: nat, left: int, fn: nat)
    requires ListOK(was, head, s) && i < |q| && |s| == |q| + 1 && s[i] < |was| && s[i + 1] < |was| && fn != 0
             && q[i].fn != 0
    requires EntriesOf(was, s) == q[..i] + [Entry(left, fn)] + q[i..]
    requires now == was[s[i] := Slot(q[i].delta, q[i].fn, was[s[i]].next)]
                       [s[i + 1] := Slot(left - q[i].delta, fn, was[s[i + 1]].next)]
    ensures ListOK(now, head, s) && EntriesOf(now, s) == q[..i + 1] + [Entry(left - q[i].delta, fn)] + q[i + 1..]
  {
    assert s[i] != s[i + 1];
    forall x: nat | x < |s| ensures Linked(now, s, x) { assert Linked(was, s, x); }
    forall x: nat | x < |now| && now[x].fn != 0 ensures x in s {
      assert s[i] in s && s[i + 1] in s;
    }
    SwappedEntries(was, now, s, q, i, left, fn);
  }

  lemma SwappedEntries(was: seq<Slot>, now: seq<Slot>, s: seq<nat>, q: seq<Entry>, i: nat, left: int, fn: nat)
    requires i < |q| && |s| == |q| + 1 && s[i] < |was| == |now| && s[i + 1] < |was| && Distinct(s)
    requires EntriesOf(was, s) == q[..i] + [Entry(left, fn)] + q[i..]
    requires EntryAt(now, s[i]) == q[i] && EntryAt(now, s[i + 1]) == Entry(left - q[i].delta, fn)
    requires forall x :: 0 <= x < |was| && x != s[i] && x != s[i + 1] ==> now[x] == was[x]
    ensures EntriesOf(now, s) == q[..i + 1] + [Entry(left - q[i].delta, fn)] + q[i + 1..]
  {
    hide EntriesOf;
    var r, r' := EntriesOf(was, s), q[..i + 1] + [Entry(left - q[i].delta, fn)] + q[i + 1..];
    forall x | 0 <= x < |s| ensures EntriesOf(now, s)[x] == r'[x] {
      if x != i && x != i + 1 {
        assert EntryAt(now, s[x]) == EntryAt(was, s[x]) == r[x];
      }
    }
  }

  /** The new request is at place `i`, with `left` ticks, on its way to where Insert puts it. */
  ghost predicate Moving(t: seq<Slot>, head: int, s: seq<nat>, q: seq<Entry>, jiffies: int, fn: nat, i: nat,
        left: int) {
    && ListOK(t, head, s) && i <= |q| && |s| == |q| + 1 && fn != 0 && (forall x :: 0 <= x < |q| ==> q[x].fn != 0)
    && EntriesOf(t, s) == q[..i] + [Entry(left, fn)] + q[i..]
    && Insert(q, jiffies, fn) == q[..i] + Insert(q[i..], left, fn)
  }

  lemma MovingStart(t: seq<Slot>, head: int, s: seq<nat>, q: seq<Entry>, jiffies: int, fn: nat)
    requires ListOK(t, head, s) && EntriesOf(t, s) == [Entry(jiffies, fn)] + q && fn != 0
    requires forall x :: 0 <= x < |q| ==> q[x].fn != 0
    ensures Moving(t, head, s, q, jiffies, fn, 0, jiffies)
  {
    hide Insert, ListOK;
    assert q[0..] == q && q[..0] + [Entry(jiffies, fn)] + q[0..] == [Entry(jiffies, fn)] + q;
  }

  lemma MovingAt(t: seq<Slot>, head: int, s: seq<nat>, q: seq<Entry>, jiffies: int, fn: nat, i: nat, left: int)
    requires Moving(t, head, s, q, jiffies, fn, i, left)
    ensures i < |s| == |q| + 1 && s[i] < |t| && t[s[i]].jiffies == left && t[s[i]].fn == fn
            && t[s[i]].next == At(s, i + 1)
    ensures i < |q| ==> s[i + 1] < |t| && s[i] != s[i + 1]
    ensures i < |q| ==> t[s[i + 1]].jiffies == q[i].delta && t[s[i + 1]].fn == q[i].fn
  {
    hide Insert, ListOK;
    LinkedAt(t, head, s, i);
    assert EntryAt(t, s[i]) == Entry(left, fn);
    if i < |q| { assert EntryAt(t, s[i + 1]) == q[i]; }
  }

  lemma MovingStep(was: seq<Slot>, now: seq<Slot>, head: int, s: seq<nat>, q: seq<Entry>, jiffies: int, fn: nat, i: nat,
                   left: int)
    requires Moving(was, head, s, q, jiffies, fn, i, left) && i < |q| && q[i].delta < left
    requires s[i] < |was| && s[i + 1] < |was|
    requires now == was[s[i] := Slot(q[i].delta, q[i].fn, was[s[i]].next)]
                       [s[i + 1] := Slot(left - q[i].delta, fn, was[s[i + 1]].next)]
    ensures Moving(now, head, s, q, jiffies, fn, i + 1, left - q[i].delta)
  {
    hide Insert, ListOK, EntriesOf;
    Swapped(was, now, head, s, q, i, left, fn);
    InsertSteps(q, i, left, fn);
  }

  lemma MovingEnd(t: seq<Slot>, head: int, s: seq<nat>, q: seq<Entry>, jiffies: int, fn: nat, i: nat, left: int)
    requires Moving(t, head, s, q, jiffies, fn, i, left) && (i == |q| || !(q[i].delta < left))
    ensures ListOK(t, head, s) && EntriesOf(t, s) == Insert(q, jiffies, fn)
  {
    hide Insert, ListOK, EntriesOf;
    InsertSteps(q, i, left, fn);
    assert q[..i] + ([Entry(left, fn)] + q[i..]) == q[..i] + [Entry(left, fn)] + q[i..];
  }

  lemma LinkedAt(t: seq<Slot>, head: int, s: seq<nat>, i: nat)
    requires ListOK(t, head, s) && i < |s|
    ensures s[i] < |t| && t[s[i]].next == At(s, i + 1) && (i + 1 < |s| ==> s[i + 1] < |t| && s[i] != s[i + 1])
  {
    assert Linked(t, s, i);
    if i + 1 < |s| { assert Linked(t, s, i + 1); }
  }

  lemma HeadOf(t: seq<Slot>, head: int, s: seq<nat>)
    requires ListOK(t, head, s)
    ensures head != NULL ==> s != [] && head == s[0] && s[0] < |t|
    ensures head == NULL ==> s == []
  {
    if s != [] { assert Linked(t, s, 0); }
  }

  lemma CountedDown(t: seq<Slot>, head: int, s: seq<nat>)
    requires ListOK(t, head, s) && s != [] && s[0] < |t|
    ensures var t' := t[s[0] := t[s[0]].(jiffies := t[s[0]].jiffies - 1)];
      ListOK(t', head, s) && EntriesOf(t', s) == CountDown(EntriesOf(t, s))
  {
    hide EntriesOf, CountDown;
    var t' := t[s[0] := t[s[0]].(jiffies := t[s[0]].jiffies - 1)];
    forall i: nat | i < |s| ensures Linked(t', s, i) { assert Linked(t, s, i); }
    forall x: nat | x < |t'| && t'[x].fn != 0 ensures x in s { assert t[x].fn != 0; }
    CountedEntries(t, s);
  }

  lemma CountedEntries(t: seq<Slot>, s: seq<nat>)
    requires Distinct(s) && s != [] && s[0] < |t|
    ensures EntriesOf(t[s[0] := t[s[0]].(jiffies := t[s[0]].jiffies - 1)], s) == CountDown(EntriesOf(t, s))
  {
    var t' := t[s[0] := t[s[0]].(jiffies := t[s[0]].jiffies - 1)];
    forall i: nat | 0 < i < |s| ensures EntryAt(t', s[i]) == EntryAt(t, s[i]) { assert s[0] != s[i]; }
  }

  lemma Called(t: seq<Slot>, head: int, s: seq<nat>)
    requires ListOK(t, head, s) && s != [] && s[0] < |t|
    ensures var t' := t[s[0] := t[s[0]].(fn := 0)];
      ListOK(t', t[s[0]].next, s[1..]) && EntriesOf(t', s[1..]) == EntriesOf(t, s)[1..]
  {
    hide EntriesOf;
    var t', r := t[s[0] := t[s[0]].(fn := 0)], s[1..];
    assert Linked(t, s, 0);
    CalledEntries(t, s);
    forall i: nat | i < |r| ensures Linked(t', r, i) && r[i] != s[0] { assert Linked(t, s, i + 1) && r[i] == s[i + 1]; }
    forall x: nat | x < |t'| && t'[x].fn != 0 ensures x in r { assert x in s && x != s[0]; }
  }

  lemma CalledEntries(t: seq<Slot>, s: seq<nat>)
    requires Distinct(s) && s != [] && s[0] < |t|
    ensures EntriesOf(t[s[0] := t[s[0]].(fn := 0)], s[1..]) == EntriesOf(t, s)[1..]
  {
  }

  lemma ExpiredStep(c: seq<Entry>, e: nat)
    requires e <= |c|
    ensures Expired(c[e..]) == if e == |c| || c[e].delta > 0 then 0 else 1 + Expired(c[e + 1..])
  {
    if e < |c| { assert c[e..][1..] == c[e + 1..]; }
  }
}
